/** The translation service the scripts call through `GoogleTranslator`. It is
    not modelled: every operation takes it as a parameter. */
module Translation {
  import opened Wrappers

  /** `(text, source code, target code)` to the translated text, or `None`
      when the call raises (network error, unsupported pair, ...). */
  type Translator = (string, string, string) -> Option<string>

  /** One `(code, name)` item of the translation library's language dict.
      Both scripts that use the dict read it in this orientation. */
  type LanguageItem = (string, string)

  function CodeOf(item: LanguageItem): string {
    item.0
  }

  function NameOf(item: LanguageItem): string {
    item.1
  }
}
