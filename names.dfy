/** `normalize_name` (app.py): the lookup key of a place name. The value is
    stripped, lowercased, and eight accented letters are replaced by their
    base letter; other diacritics (ã, õ, à, ...) are kept. */
module Names {
  import opened Wrappers
  import opened Text

  /** `str.replace(from, to)` for one character by one character. */
  function Replace(s: string, from: char, to: char): (r: string)
    ensures |r| == |s|
    ensures forall i :: 0 <= i < |s| ==> r[i] == (if s[i] == from then to else s[i])
  {
    seq(|s|, i requires 0 <= i < |s| => if s[i] == from then to else s[i])
  }

  /** The chain of eight `replace` calls, in the source's order. */
  function FoldAccents(s: string): (r: string)
    ensures |r| == |s|
    ensures forall i :: 0 <= i < |s| ==> r[i] == Fold(s[i])
  {
    Replace(Replace(Replace(Replace(Replace(Replace(Replace(Replace(s,
      'ç', 'c'), 'á', 'a'), 'é', 'e'), 'í', 'i'), 'ó', 'o'), 'ú', 'u'), 'â', 'a'), 'ô', 'o')
  }

  /** The eight characters the chain replaces. */
  predicate IsFoldedAccent(c: char) {
    c == 'ç' || c == 'á' || c == 'é' || c == 'í' || c == 'ó' || c == 'ú' || c == 'â' || c == 'ô'
  }

  /** The replacement table, one character at a time. */
  function Fold(c: char): (r: char)
    ensures !IsFoldedAccent(r)
    ensures !IsFoldedAccent(c) ==> r == c
    ensures IsFoldedAccent(c) ==> 'a' <= r <= 'z'
  {
    match c
    case 'ç' => 'c'
    case 'á' => 'a'
    case 'é' => 'e'
    case 'í' => 'i'
    case 'ó' => 'o'
    case 'ú' => 'u'
    case 'â' => 'a'
    case 'ô' => 'o'
    case _ => c
  }

  /** The eight chained replacements act as the table `Fold` on each character:
      no replacement target is itself one of the replaced characters. */
  lemma FoldAccentsPointwise(s: string)
    ensures FoldAccents(s) == MapChars(Fold, s)
  {
  }

  /** The character-level key: lowercase, then fold. */
  function KeyChar(c: char): char {
    Fold(Lower(c))
  }

  /** `normalize_name`: a missing value (`pd.isna`) gives the empty string;
      anything else is stripped, lowercased and folded. */
  function Normalize(x: Option<string>): (r: string)
    ensures x.None? ==> r == ""
  {
    match x
    case None => ""
    case Some(s) => FoldAccents(LowerStr(Strip(s)))
  }

  /** The normalised form is the key character of each character of the
      stripped input. */
  lemma NormalizeIsKeyOfStripped(s: string)
    ensures Normalize(Some(s)) == MapChars(KeyChar, Strip(s))
  {
    FoldAccentsPointwise(LowerStr(Strip(s)));
  }

  lemma KeyCharKeepsSpace(c: char)
    ensures IsSpace(KeyChar(c)) == IsSpace(c)
    ensures KeyChar(KeyChar(c)) == KeyChar(c)
  {
  }

  /** The shape of a normalised name: as long as the stripped input, stripped
      itself, free of the eight replaced letters, and every character whose
      lowercase is outside the table is exactly that lowercase (so ã, õ and
      à survive). */
  lemma NormalizeShape(s: string)
    ensures var r, t := Normalize(Some(s)), Strip(s);
      && |r| == |t|
      && IsStripped(r)
      && (forall i :: 0 <= i < |r| ==> !IsFoldedAccent(r[i]))
      && (forall i :: 0 <= i < |t| && !IsFoldedAccent(Lower(t[i])) ==> r[i] == Lower(t[i]))
      && (forall i :: 0 <= i < |t| && IsFoldedAccent(Lower(t[i])) ==> r[i] == Fold(Lower(t[i])))
  {
    var r, t := Normalize(Some(s)), Strip(s);
    NormalizeIsKeyOfStripped(s);
    if |t| > 0 {
      KeyCharKeepsSpace(t[0]);
      KeyCharKeepsSpace(t[|t| - 1]);
    }
  }

  /** Normalising twice is normalising once. */
  lemma NormalizeIdempotent(x: Option<string>)
    ensures Normalize(Some(Normalize(x))) == Normalize(x)
  {
    if x.Some? {
      var t := Strip(x.value);
      NormalizeIsKeyOfStripped(x.value);
      var r := MapChars(KeyChar, t);
      KeyOfStrippedIsFixed(t);
      StripStripped(r);
      NormalizeIsKeyOfStripped(r);
    }
  }

  /** The key of a stripped string is stripped and is its own key. */
  lemma KeyOfStrippedIsFixed(t: string)
    requires IsStripped(t)
    ensures IsStripped(MapChars(KeyChar, t))
    ensures MapChars(KeyChar, MapChars(KeyChar, t)) == MapChars(KeyChar, t)
  {
    var r := MapChars(KeyChar, t);
    if |t| > 0 {
      KeyCharKeepsSpace(t[0]);
      KeyCharKeepsSpace(t[|t| - 1]);
    }
    forall i | 0 <= i < |r|
      ensures MapChars(KeyChar, r)[i] == r[i]
    {
      KeyCharKeepsSpace(t[i]);
    }
  }

  /** Two names whose characters agree after lowercasing and folding, position
      by position, have the same key: case and the eight folded accents make
      no difference. */
  lemma NormalizeAgrees(s1: string, s2: string)
    requires |s1| == |s2|
    requires forall i :: 0 <= i < |s1| ==> KeyChar(s1[i]) == KeyChar(s2[i])
    ensures Normalize(Some(s1)) == Normalize(Some(s2))
  {
    forall c ensures IsSpace(KeyChar(c)) == IsSpace(c) {
      KeyCharKeepsSpace(c);
    }
    NormalizeIsKeyOfStripped(s1);
    NormalizeIsKeyOfStripped(s2);
    StripMap(KeyChar, s1);
    StripMap(KeyChar, s2);
    assert MapChars(KeyChar, s1) == MapChars(KeyChar, s2);
  }

  /** Lowercasing a name first does not change its key. */
  lemma NormalizeIgnoresCase(s: string)
    ensures Normalize(Some(LowerStr(s))) == Normalize(Some(s))
  {
    forall i | 0 <= i < |s| ensures KeyChar(LowerStr(s)[i]) == KeyChar(s[i]) {
      LowerIdempotent(s[i]);
    }
    NormalizeAgrees(LowerStr(s), s);
  }

  /** Folding the eight accents first does not change the key. */
  lemma NormalizeIgnoresFolding(s: string)
    ensures Normalize(Some(FoldAccents(s))) == Normalize(Some(s))
  {
    FoldAccentsPointwise(s);
    NormalizeAgrees(FoldAccents(s), s);
  }

  /** Whitespace around a name does not change its key. */
  lemma NormalizeIgnoresPadding(p: string, s: string, q: string)
    requires AllSpace(p) && AllSpace(q)
    ensures Normalize(Some(p + s + q)) == Normalize(Some(s))
  {
    StripPadding(p, s, q);
  }

  lemma StripExampleState(s: string)
    requires s == " PIAUÍ "
    ensures Strip(s) == "PIAUÍ"
  {
    var t := "PIAUÍ";
    assert s == [' '] + t + [' '];
    assert !IsSpace(t[0]) && !IsSpace(t[|t| - 1]);
    StripOneSpace(' ', t);
  }

  lemma StripOneSpace(c: char, t: string)
    requires IsSpace(c) && IsStripped(t)
    ensures Strip([c] + t + [c]) == t
  {
    StripPadding([c], t, [c]);
    StripStripped(t);
  }

  lemma KeyExampleState(t: string)
    requires t == "PIAUÍ"
    ensures MapChars(KeyChar, t) == "piaui"
  {
    var k := MapChars(KeyChar, t);
    assert k[0] == 'p' && k[1] == 'i' && k[2] == 'a' && k[3] == 'u' && k[4] == 'i';
  }

  /** A worked key: the state "Piauí" typed with spaces and capitals. */
  lemma NormalizeExampleState(s: string)
    requires s == " PIAUÍ "
    ensures Normalize(Some(s)) == "piaui"
  {
    StripExampleState(s);
    KeyExampleState(Strip(s));
    NormalizeIsKeyOfStripped(s);
  }

  lemma StripExampleTilde(s: string)
    requires s == "São Luís"
    ensures Strip(s) == s
  {
    assert !IsSpace(s[0]) && !IsSpace(s[|s| - 1]);
    StripStripped(s);
  }

  lemma KeyExampleTilde(s: string)
    requires s == "São Luís"
    ensures MapChars(KeyChar, s) == "são luis"
  {
    var k := MapChars(KeyChar, s);
    assert k[0] == 's' && k[1] == 'ã' && k[2] == 'o' && k[3] == ' ';
    assert k[4] == 'l' && k[5] == 'u' && k[6] == 'i' && k[7] == 's';
  }

  /** A worked key: the ã of "São Luís" is outside the table and stays. */
  lemma NormalizeExampleTilde(s: string)
    requires s == "São Luís"
    ensures Normalize(Some(s)) == "são luis"
  {
    StripExampleTilde(s);
    KeyExampleTilde(s);
    NormalizeIsKeyOfStripped(s);
  }
}
