/** Character and string primitives the source takes from Python's `str`:
    `lower`, `strip`, the `in` substring test, and the text pandas gives a
    cell when a column is converted with `astype(str)`. */
module Text {
  import opened Wrappers

  /** What Python's `str.isspace` calls whitespace: every character `strip()`
      removes. */
  predicate IsSpace(c: char) {
    || c == ' '
    || ('\t' <= c <= '\r')
    || ('\U{1C}' <= c <= '\U{1F}')
    || c == '\U{85}' || c == '\U{A0}' || c == '\U{1680}'
    || ('\U{2000}' <= c <= '\U{200A}')
    || c == '\U{2028}' || c == '\U{2029}' || c == '\U{202F}'
    || c == '\U{205F}' || c == '\U{3000}'
  }

  /** Python's `str.lower` on one character, for ASCII and Latin-1: `A`-`Z`
      and the accented capitals U+00C0-U+00DE (except the multiplication
      sign U+00D7) move down by 0x20; every other character is unchanged. */
  function Lower(c: char): (r: char)
    ensures 'A' <= c <= 'Z' ==> 'a' <= r <= 'z'
    ensures ('A' <= c <= 'Z' || ('\U{C0}' <= c <= '\U{DE}' && c != '\U{D7}')) ==> r as int == c as int + 0x20
    ensures !('A' <= r <= 'Z') && !('\U{C0}' <= r <= '\U{DE}' && r != '\U{D7}')
    ensures !('A' <= c <= 'Z') && !('\U{C0}' <= c <= '\U{DE}' && c != '\U{D7}') ==> r == c
  {
    if 'A' <= c <= 'Z' then (c as int + 0x20) as char
    else if '\U{C0}' <= c <= '\U{DE}' && c != '\U{D7}' then (c as int + 0x20) as char
    else c
  }

  /** Applies a character map to every character of a string. */
  function MapChars(f: char -> char, s: string): (r: string)
    ensures |r| == |s|
    ensures forall i :: 0 <= i < |s| ==> r[i] == f(s[i])
  {
    seq(|s|, i requires 0 <= i < |s| => f(s[i]))
  }

  /** `str.lower()`. */
  function LowerStr(s: string): (r: string)
    ensures |r| == |s|
    ensures forall i :: 0 <= i < |s| ==> r[i] == Lower(s[i])
  {
    MapChars(Lower, s)
  }

  lemma LowerIdempotent(c: char)
    ensures Lower(Lower(c)) == Lower(c)
    ensures IsSpace(Lower(c)) == IsSpace(c)
  {
  }

  /** Drops the leading whitespace (`lstrip()`). */
  function TrimStart(s: string): (r: string)
    ensures |r| <= |s| && r == s[|s| - |r|..]
    ensures forall k :: 0 <= k < |s| - |r| ==> IsSpace(s[k])
    ensures r == [] || !IsSpace(r[0])
  {
    if |s| > 0 && IsSpace(s[0]) then TrimStart(s[1..]) else s
  }

  /** Drops the trailing whitespace (`rstrip()`). */
  function TrimEnd(s: string): (r: string)
    ensures |r| <= |s| && r == s[..|r|]
    ensures forall k :: |r| <= k < |s| ==> IsSpace(s[k])
    ensures r == [] || !IsSpace(r[|r| - 1])
  {
    if |s| > 0 && IsSpace(s[|s| - 1]) then TrimEnd(s[..|s| - 1]) else s
  }

  /** `str.strip()`. */
  function Strip(s: string): (r: string)
    ensures |r| <= |s|
    ensures r == [] || (!IsSpace(r[0]) && !IsSpace(r[|r| - 1]))
    ensures exists a :: FramedBySpace(s, a, r)
  {
    var t := TrimStart(s);
    var r := TrimEnd(t);
    SpaceFramed(s, t, r);
    r
  }

  /** `r` sits at offset `a` of `s` with nothing but whitespace around it. */
  predicate FramedBySpace(s: string, a: int, r: string) {
    0 <= a <= |s| - |r| && r == s[a..a + |r|] && AllSpace(s[..a]) && AllSpace(s[a + |r|..])
  }

  /** A suffix of `s` after whitespace, cut before trailing whitespace, is
      framed by whitespace in `s`. */
  lemma SpaceFramed(s: string, t: string, r: string)
    requires |t| <= |s| && t == s[|s| - |t|..] && forall k :: 0 <= k < |s| - |t| ==> IsSpace(s[k])
    requires |r| <= |t| && r == t[..|r|] && forall k :: |r| <= k < |t| ==> IsSpace(t[k])
    ensures FramedBySpace(s, |s| - |t|, r)
  {
    var a := |s| - |t|;
    assert r == s[a..a + |r|];
    assert AllSpace(s[..a]);
    var tail := s[a + |r|..];
    assert forall k :: 0 <= k < |tail| ==> tail[k] == t[|r| + k];
    assert AllSpace(tail);
  }

  /** True when `s` has no leading and no trailing whitespace. */
  predicate IsStripped(s: string) {
    s == [] || (!IsSpace(s[0]) && !IsSpace(s[|s| - 1]))
  }

  predicate AllSpace(s: string) {
    forall k :: 0 <= k < |s| ==> IsSpace(s[k])
  }

  /** Stripping a string that is already stripped changes nothing. */
  lemma StripStripped(s: string)
    requires IsStripped(s)
    ensures Strip(s) == s
  {
  }

  /** A character map that keeps whitespace whitespace and everything else
      non-whitespace commutes with `strip()`. */
  lemma {:induction false} TrimStartMap(f: char -> char, s: string)
    requires forall c :: IsSpace(f(c)) == IsSpace(c)
    ensures TrimStart(MapChars(f, s)) == MapChars(f, TrimStart(s))
    decreases |s|
  {
    if |s| > 0 && IsSpace(s[0]) {
      assert IsSpace(MapChars(f, s)[0]);
      assert MapChars(f, s)[1..] == MapChars(f, s[1..]);
      TrimStartMap(f, s[1..]);
    } else if |s| > 0 {
      assert !IsSpace(MapChars(f, s)[0]);
    }
  }

  lemma {:induction false} TrimEndMap(f: char -> char, s: string)
    requires forall c :: IsSpace(f(c)) == IsSpace(c)
    ensures TrimEnd(MapChars(f, s)) == MapChars(f, TrimEnd(s))
    decreases |s|
  {
    if |s| > 0 && IsSpace(s[|s| - 1]) {
      assert IsSpace(MapChars(f, s)[|s| - 1]);
      assert MapChars(f, s)[..|s| - 1] == MapChars(f, s[..|s| - 1]);
      TrimEndMap(f, s[..|s| - 1]);
    } else if |s| > 0 {
      assert !IsSpace(MapChars(f, s)[|s| - 1]);
    }
  }

  lemma StripMap(f: char -> char, s: string)
    requires forall c :: IsSpace(f(c)) == IsSpace(c)
    ensures Strip(MapChars(f, s)) == MapChars(f, Strip(s))
  {
    TrimStartMap(f, s);
    TrimEndMap(f, TrimStart(s));
  }

  lemma {:induction false} TrimStartSpaces(p: string, s: string)
    requires AllSpace(p)
    ensures TrimStart(p + s) == TrimStart(s)
    decreases |p|
  {
    if |p| > 0 {
      assert (p + s)[1..] == p[1..] + s;
      TrimStartSpaces(p[1..], s);
    } else {
      assert p + s == s;
    }
  }

  lemma {:induction false} TrimEndSpaces(s: string, q: string)
    requires AllSpace(q)
    ensures TrimEnd(s + q) == TrimEnd(s)
    decreases |q|
  {
    if |q| > 0 {
      assert (s + q)[..|s + q| - 1] == s + q[..|q| - 1];
      TrimEndSpaces(s, q[..|q| - 1]);
    } else {
      assert s + q == s;
    }
  }

  /** Appending to a string that still has a non-space character leaves its
      leading whitespace where it was; appending to an all-space string is
      stripping the appended part alone. */
  lemma {:induction false} TrimStartAppend(s: string, q: string)
    ensures TrimStart(s) != [] ==> TrimStart(s + q) == TrimStart(s) + q
    ensures TrimStart(s) == [] ==> TrimStart(s + q) == TrimStart(q)
    decreases |s|
  {
    if |s| == 0 {
      assert s + q == q;
    } else if IsSpace(s[0]) {
      assert (s + q)[1..] == s[1..] + q;
      TrimStartAppend(s[1..], q);
    }
  }

  /** Whitespace around a string makes no difference to `strip()`. */
  lemma StripPadding(p: string, s: string, q: string)
    requires AllSpace(p) && AllSpace(q)
    ensures Strip(p + s + q) == Strip(s)
  {
    assert p + s + q == p + (s + q);
    TrimStartSpaces(p, s + q);
    TrimStartAppend(s, q);
    if TrimStart(s) == [] {
      TrimStartSpaces(q, []);
      assert q + [] == q;
    } else {
      TrimEndSpaces(TrimStart(s), q);
    }
  }

  /** `p` is a prefix of `s` (`s.startswith(p)`). */
  predicate IsPrefix(p: string, s: string) {
    |p| <= |s| && s[..|p|] == p
  }

  /** Python's `p in s` on strings: `p` occurs somewhere in `s`. */
  predicate Contains(s: string, p: string)
    ensures Contains(s, p) ==> |p| <= |s|
    ensures p == [] ==> Contains(s, p)
    decreases |s|
  {
    IsPrefix(p, s) || (|s| > 0 && Contains(s[1..], p))
  }

  /** `Contains` is exactly "occurs at some offset". */
  lemma {:induction false} ContainsAt(s: string, p: string, k: nat)
    requires k + |p| <= |s|
    ensures Contains(s, p) <== s[k..k + |p|] == p
    decreases k
  {
    if k > 0 && s[k..k + |p|] == p {
      assert s[1..][k - 1..k - 1 + |p|] == s[k..k + |p|];
      ContainsAt(s[1..], p, k - 1);
    }
  }

  lemma {:induction false} ContainsWitness(s: string, p: string) returns (k: nat)
    requires Contains(s, p)
    ensures k + |p| <= |s| && s[k..k + |p|] == p
    decreases |s|
  {
    if IsPrefix(p, s) {
      k := 0;
    } else {
      var j := ContainsWitness(s[1..], p);
      assert s[1..][j..j + |p|] == s[j + 1..j + 1 + |p|];
      k := j + 1;
    }
  }

  /** Every string contains itself and the empty string. */
  lemma ContainsTrivial(s: string)
    ensures Contains(s, s) && Contains(s, "")
  {
  }

  /** The text pandas gives a cell under `astype(str)`: a missing value
      becomes the three characters `nan`. */
  function AsText(cell: Option<string>): (r: string)
    ensures cell.Some? ==> r == cell.value
    ensures cell.None? ==> r == "nan"
  {
    match cell
    case None => "nan"
    case Some(s) => s
  }
}
