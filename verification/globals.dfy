/** Deployment-time configuration read by the pipeline. */
module Globals {

  /** The locales a localized redirect is fanned out to, in order. */
  const Locales: seq<string> := [
    "de-de", "en-au", "en-ca", "en-gb", "en-in", "en-us", "es-es", "fr-fr",
    "id-id", "it-it", "ja-jp", "ko-kr", "nl-nl", "pt-br", "ru-ru", "sv-se",
    "th-th", "tr-tr", "vi-vn", "zh-cn", "zh-hans-cn", "zh-tw"
  ]

  /** The default locale used when `DEFAULT_LOCALE` is not configured. */
  const FallbackLocale: string := "en-US"
}
