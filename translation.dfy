/** Switching the site's language: every element tagged with a translation
    key gets the text the table holds for that key in the chosen language;
    an element whose key has no (non-empty) text there keeps what it shows. */
module Translation {

  /** Language code to translation key to text. */
  type Table = map<string, map<string, string>>

  /** An element with a data-key attribute and the text it currently shows. */
  datatype Element = Element(key: string, text: string)

  /** The table has a usable text for the key: the language is present and
      its entry for the key exists and is not the empty string. */
  predicate HasText(table: Table, lang: string, key: string) {
    lang in table && key in table[lang] && table[lang][key] != ""
  }

  /** One element after the switch: its key never changes, its text is
      replaced by the table's text when there is one, and otherwise stays. */
  function Translate(table: Table, lang: string, e: Element): (r: Element)
    ensures r.key == e.key
    ensures HasText(table, lang, e.key) ==> r.text == table[lang][e.key]
    ensures !HasText(table, lang, e.key) ==> r == e
  {
    if HasText(table, lang, e.key) then e.(text := table[lang][e.key]) else e
  }

  /** Every element after the switch, in document order. */
  function TranslateAll(table: Table, lang: string, elements: seq<Element>): (r: seq<Element>)
    ensures |r| == |elements|
    ensures forall i :: 0 <= i < |elements| ==> r[i] == Translate(table, lang, elements[i])
  {
    seq(|elements|, i requires 0 <= i < |elements| => Translate(table, lang, elements[i]))
  }

  /** updateLanguage: visit the elements found by the key scan and set each
      one's text; then set the document's language attribute, returned here.
      Elements added after the scan are not in the array and are not touched. */
  method UpdateLanguage(elements: array<Element>, table: Table, lang: string)
    returns (documentLang: string)
    modifies elements
    ensures elements[..] == TranslateAll(table, lang, old(elements[..]))
    ensures documentLang == lang
  {
    for i := 0 to elements.Length
      invariant forall k :: 0 <= k < i ==> elements[k] == Translate(table, lang, old(elements[k]))
      invariant forall k :: i <= k < elements.Length ==> elements[k] == old(elements[k])
    {
      var e := elements[i];
      if HasText(table, lang, e.key) {
        elements[i] := e.(text := table[lang][e.key]);
      }
    }
    documentLang := lang;
  }

  /** A language the table does not know leaves every text as it is. */
  lemma UnknownLanguageKeepsTexts(table: Table, lang: string, elements: seq<Element>)
    requires lang !in table
    ensures TranslateAll(table, lang, elements) == elements
  {
  }

  /** Choosing the same language twice is the same as choosing it once. */
  lemma TranslateAllIdempotent(table: Table, lang: string, elements: seq<Element>)
    ensures TranslateAll(table, lang, TranslateAll(table, lang, elements)) == TranslateAll(table, lang, elements)
  {
  }

  /** After switching from one language to another, an element shows the new
      language's text if there is one, else the old language's text if there
      was one, else its original text: a key missing from the new language
      keeps showing the previous language's words. */
  lemma SwitchFallsBack(table: Table, from: string, to: string, elements: seq<Element>, i: nat)
    requires i < |elements|
    ensures TranslateAll(table, to, TranslateAll(table, from, elements))[i].text ==
      if HasText(table, to, elements[i].key) then table[to][elements[i].key]
      else if HasText(table, from, elements[i].key) then table[from][elements[i].key]
      else elements[i].text
  {
  }

  /** When the new language has a text for every key on the page, the result
      does not depend on the language shown before. */
  lemma CompleteLanguageOverridesPrevious(table: Table, from: string, to: string, elements: seq<Element>)
    requires forall i :: 0 <= i < |elements| ==> HasText(table, to, elements[i].key)
    ensures TranslateAll(table, to, TranslateAll(table, from, elements)) == TranslateAll(table, to, elements)
  {
  }
}
