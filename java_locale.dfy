/** `java.util.Locale`, which LocaleList treats as an opaque value: only its
    equality and four of its operations are used, and none of their internals
    (BCP 47 parsing and canonicalisation) matter to the list. Each operation is
    an uninterpreted total function. Dafny's `==` on `Locale` stands for
    `Locale.equals`, so `LocaleHash` is consistent with it by construction, and
    `clone` is the identity on values. */
module JavaLocale {
  import opened JavaLang

  type Locale(==, 0)

  /** `Locale.toLanguageTag()`. */
  const LanguageTag: Locale -> string

  /** `Locale.forLanguageTag(String)`, documented never to return null. */
  const ForLanguageTag: string -> Locale

  /** `Locale.hashCode()`. */
  const LocaleHash: Locale -> int32

  /** `Locale.toString()`, the display form appended by `StringBuilder.append`. */
  const LocaleString: Locale -> string
}
