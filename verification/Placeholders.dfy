/** The `{name}` placeholders of a translated text. */
module Placeholders {
  predicate IsWordChar(c: char) {
    'a' <= c <= 'z' || 'A' <= c <= 'Z' || '0' <= c <= '9' || c == '_'
  }

  /** `{name}` occupies `text[i..j + 1]`; such places never overlap, because a name holds no brace. */
  predicate PlaceholderAt(text: string, i: nat, j: nat) {
    && i + 1 < j < |text| && text[i] == '{' && text[j] == '}'
    && forall k :: i < k < j ==> IsWordChar(text[k])
  }

  /** The names that `extractTranslationPlaceholders` and `extractPlaceholders` list, without their order. */
  function PlaceholderNames(text: string): set<string> {
    set i: nat, j: nat | 0 <= i < |text| && 0 <= j < |text| && PlaceholderAt(text, i, j) :: text[i + 1..j]
  }

  lemma StandsInBraces(before: string, name: string, after: string)
    requires name != "" && forall c | c in name :: IsWordChar(c)
    ensures name in PlaceholderNames(before + "{" + name + "}" + after)
  {
    var text := before + "{" + name + "}" + after;
    var i, j := |before|, |before| + 1 + |name|;
    assert text[i + 1..j] == name;
    assert forall k :: i < k < j ==> text[k] == name[k - i - 1];
    assert PlaceholderAt(text, i, j);
  }

  /** The non-empty words that stand in braces somewhere in the text. */
  lemma PlaceholdersAre(text: string, name: string)
    ensures name in PlaceholderNames(text) <==>
            && name != "" && (forall c | c in name :: IsWordChar(c))
            && exists before, after :: text == before + "{" + name + "}" + after
  {
    if name in PlaceholderNames(text) {
      var i: nat, j: nat :| i < |text| && j < |text| && PlaceholderAt(text, i, j) && name == text[i + 1..j];
      assert text == text[..i] + "{" + name + "}" + text[j + 1..];
    }
    if before, after :| text == before + "{" + name + "}" + after {
      hide PlaceholderNames;
      if name != "" && forall c | c in name :: IsWordChar(c) { StandsInBraces(before, name, after); }
    }
  }
}
