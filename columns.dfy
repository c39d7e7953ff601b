/** `find_column` (app.py): resolve a column of a CSV header from a list of
    candidate names, first by case-insensitive equality, then by
    case-insensitive containment. The header is the table's column names in
    declaration order. */
module Columns {
  import opened Wrappers
  import opened Text

  /** The keys of the dict `{c.lower(): c for c in df.columns}`, in its
      iteration order: each lowercased name once, where it first appears. */
  function KeyOrder(header: seq<string>): (keys: seq<string>)
    ensures forall k :: k in keys <==> exists i :: 0 <= i < |header| && LowerStr(header[i]) == k
    ensures forall a, b :: 0 <= a < b < |keys| ==> keys[a] != keys[b]
    decreases |header|
  {
    if header == [] then []
    else
      var prefix := header[..|header| - 1];
      var keys := KeyOrder(prefix);
      var k := LowerStr(header[|header| - 1]);
      assert forall i :: 0 <= i < |prefix| ==> prefix[i] == header[i];
      if k in keys then keys else keys + [k]
  }

  /** The value the same dict stores under key `k`: the LAST header whose
      lowercase is `k`, since a later assignment overwrites an earlier one. */
  function Spelling(header: seq<string>, k: string): (r: Option<string>)
    ensures r.None? <==> forall i :: 0 <= i < |header| ==> LowerStr(header[i]) != k
    ensures r.Some? ==> exists i :: 0 <= i < |header| && header[i] == r.value && LastLowering(header, k, i)
    decreases |header|
  {
    if header == [] then None
    else
      var n := |header| - 1;
      if LowerStr(header[n]) == k then
        assert LastLowering(header, k, n);
        Some(header[n])
      else
        var r := Spelling(header[..n], k);
        assert forall i :: 0 <= i < n ==> header[..n][i] == header[i];
        assert forall i :: 0 <= i < n && LastLowering(header[..n], k, i) ==> LastLowering(header, k, i);
        r
  }

  /** Header `i` lowercases to `k` and no later header does. */
  ghost predicate LastLowering(header: seq<string>, k: string, i: int) {
    0 <= i < |header| && LowerStr(header[i]) == k
    && forall j :: i < j < |header| ==> LowerStr(header[j]) != k
  }

  /** The first pass: the first candidate whose lowercase is a dict key. */
  function ExactPass(header: seq<string>, candidates: seq<string>): (r: Option<string>)
    ensures r.Some? ==> r.value in header
    decreases |candidates|
  {
    if candidates == [] then None
    else
      var s := Spelling(header, LowerStr(candidates[0]));
      if s.Some? then s else ExactPass(header, candidates[1..])
  }

  /** The first key, in iteration order, that contains `p`. */
  function FirstContaining(keys: seq<string>, p: string): (r: Option<string>)
    ensures r.Some? ==> r.value in keys && Contains(r.value, p)
    ensures r.None? <==> forall i :: 0 <= i < |keys| ==> !Contains(keys[i], p)
    decreases |keys|
  {
    if keys == [] then None
    else if Contains(keys[0], p) then Some(keys[0])
    else
      assert forall i :: 1 <= i < |keys| ==> keys[i] == keys[1..][i - 1];
      FirstContaining(keys[1..], p)
  }

  /** The second pass: for each candidate in turn, the dict's keys in
      iteration order; the first key containing the candidate gives its
      stored header. */
  function SubstringPass(header: seq<string>, candidates: seq<string>): (r: Option<string>)
    ensures r.Some? ==> r.value in header
    decreases |candidates|
  {
    if candidates == [] then None
    else
      match FirstContaining(KeyOrder(header), LowerStr(candidates[0]))
      case Some(k) => Spelling(header, k)
      case None => SubstringPass(header, candidates[1..])
  }

  /** `find_column`: the exact pass over all candidates, and only if it finds
      nothing, the substring pass. */
  function FindColumn(header: seq<string>, candidates: seq<string>): (r: Option<string>)
    ensures r.Some? ==> r.value in header
  {
    var exact := ExactPass(header, candidates);
    if exact.Some? then exact else SubstringPass(header, candidates)
  }

  /** The source's loops: build the dict, then the two passes with early
      returns. */
  method FindColumnIn(header: seq<string>, candidates: seq<string>) returns (r: Option<string>)
    ensures r == FindColumn(header, candidates)
  {
    var cols: map<string, string> := map[];
    var keys: seq<string> := [];
    var i := 0;
    while i < |header|
      invariant 0 <= i <= |header|
      invariant keys == KeyOrder(header[..i])
      invariant forall k :: k in cols <==> k in keys
      invariant forall k :: k in cols ==> Spelling(header[..i], k) == Some(cols[k])
    {
      assert header[..i + 1][..i] == header[..i];
      var k := LowerStr(header[i]);
      if k !in cols {
        keys := keys + [k];
      }
      cols := cols[k := header[i]];
      i := i + 1;
    }
    assert header[..i] == header;

    var j := 0;
    while j < |candidates|
      invariant 0 <= j <= |candidates|
      invariant ExactPass(header, candidates[j..]) == ExactPass(header, candidates)
    {
      assert candidates[j..][1..] == candidates[j + 1..];
      var lc := LowerStr(candidates[j]);
      if lc in cols {
        return Some(cols[lc]);
      }
      j := j + 1;
    }

    j := 0;
    while j < |candidates|
      invariant 0 <= j <= |candidates|
      invariant ExactPass(header, candidates) == None
      invariant SubstringPass(header, candidates[j..]) == SubstringPass(header, candidates)
    {
      assert candidates[j..][1..] == candidates[j + 1..];
      var lc := LowerStr(candidates[j]);
      var t := 0;
      while t < |keys|
        invariant 0 <= t <= |keys|
        invariant FirstContaining(keys[t..], lc) == FirstContaining(keys, lc)
      {
        assert keys[t..][1..] == keys[t + 1..];
        if Contains(keys[t], lc) {
          return Some(cols[keys[t]]);
        }
        t := t + 1;
      }
      j := j + 1;
    }
    return None;
  }

  /** When no candidate is any header's lowercase, the exact pass finds nothing. */
  lemma {:induction false} ExactPassNone(header: seq<string>, candidates: seq<string>)
    requires forall c, u :: 0 <= c < |candidates| && 0 <= u < |header| ==>
      LowerStr(header[u]) != LowerStr(candidates[c])
    ensures ExactPass(header, candidates) == None
    decreases |candidates|
  {
    if candidates != [] {
      ExactPassNone(header, candidates[1..]);
    }
  }

  /** The earliest candidate that equals some header up to case decides the
      result: the last header spelled like it. This holds even when an earlier
      candidate occurs inside some header, because the exact pass runs over all
      candidates before the substring pass begins. */
  lemma ExactMatchWins(header: seq<string>, candidates: seq<string>, i: nat, t: nat)
    requires i < |candidates| && t < |header|
    requires LowerStr(header[t]) == LowerStr(candidates[i])
    requires forall c, u :: 0 <= c < i && 0 <= u < |header| ==> LowerStr(header[u]) != LowerStr(candidates[c])
    ensures FindColumn(header, candidates) == Spelling(header, LowerStr(candidates[i]))
    ensures var r := FindColumn(header, candidates);
      r.Some? && exists u :: 0 <= u < |header| && header[u] == r.value && LastLowering(header, LowerStr(candidates[i]), u)
  {
    ExactPassAt(header, candidates, i, t);
  }

  lemma {:induction false} ExactPassAt(header: seq<string>, candidates: seq<string>, i: nat, t: nat)
    requires i < |candidates| && t < |header|
    requires LowerStr(header[t]) == LowerStr(candidates[i])
    requires forall c, u :: 0 <= c < i && 0 <= u < |header| ==> LowerStr(header[u]) != LowerStr(candidates[c])
    ensures ExactPass(header, candidates) == Spelling(header, LowerStr(candidates[i]))
    ensures ExactPass(header, candidates).Some?
    decreases i
  {
    if i > 0 {
      assert Spelling(header, LowerStr(candidates[0])) == None;
      assert candidates[1..][i - 1] == candidates[i];
      assert forall c :: 0 <= c < i - 1 ==> candidates[1..][c] == candidates[c + 1];
      ExactPassAt(header, candidates[1..], i - 1, t);
    }
  }

  /** The first key containing `p` is the lowercase of the first header whose
      lowercase contains `p`: keys are ordered by first appearance. */
  lemma {:induction false} FirstContainingKeyOrder(header: seq<string>, p: string, t: nat)
    requires t < |header| && Contains(LowerStr(header[t]), p)
    requires forall u :: 0 <= u < t ==> !Contains(LowerStr(header[u]), p)
    ensures FirstContaining(KeyOrder(header), p) == Some(LowerStr(header[t]))
    decreases |header|
  {
    var n := |header| - 1;
    var prefix := header[..n];
    assert forall u :: 0 <= u < n ==> prefix[u] == header[u];
    var k := LowerStr(header[n]);
    var keys := KeyOrder(prefix);
    assert KeyOrder(header) == if k in keys then keys else keys + [k];
    if t < n {
      FirstContainingKeyOrder(prefix, p, t);
      FirstContainingAppend(keys, [k], p);
    } else {
      forall a | 0 <= a < |keys| ensures !Contains(keys[a], p) {
        assert keys[a] in keys;
        var u :| 0 <= u < |prefix| && LowerStr(prefix[u]) == keys[a];
      }
      assert FirstContaining(keys, p) == None;
      assert k !in keys;
      FirstContainingAppend(keys, [k], p);
    }
  }

  lemma {:induction false} FirstContainingAppend(keys: seq<string>, more: seq<string>, p: string)
    ensures FirstContaining(keys + more, p) ==
      if FirstContaining(keys, p).Some? then FirstContaining(keys, p) else FirstContaining(more, p)
    decreases |keys|
  {
    if keys == [] {
      assert keys + more == more;
    } else {
      assert (keys + more)[1..] == keys[1..] + more;
      FirstContainingAppend(keys[1..], more, p);
    }
  }

  /** With no exact match, the earliest candidate that occurs inside some
      lowercased header decides the result: among the headers whose lowercase
      contains it, the first one's lowercase is the key taken, and the last
      header spelled like that key is returned. */
  lemma {:induction false} SubstringFallback(header: seq<string>, candidates: seq<string>, i: nat, t: nat)
    requires forall c, u :: 0 <= c < |candidates| && 0 <= u < |header| ==>
      LowerStr(header[u]) != LowerStr(candidates[c])
    requires i < |candidates| && t < |header|
    requires Contains(LowerStr(header[t]), LowerStr(candidates[i]))
    requires forall c, u :: 0 <= c < i && 0 <= u < |header| ==> !Contains(LowerStr(header[u]), LowerStr(candidates[c]))
    requires forall u :: 0 <= u < t ==> !Contains(LowerStr(header[u]), LowerStr(candidates[i]))
    ensures FindColumn(header, candidates) == Spelling(header, LowerStr(header[t]))
    ensures var r := FindColumn(header, candidates);
      r.Some? && Contains(LowerStr(r.value), LowerStr(candidates[i]))
  {
    ExactPassNone(header, candidates);
    SubstringPassFrom(header, candidates, i, t);
  }

  lemma {:induction false} SubstringPassFrom(header: seq<string>, candidates: seq<string>, i: nat, t: nat)
    requires i < |candidates| && t < |header|
    requires Contains(LowerStr(header[t]), LowerStr(candidates[i]))
    requires forall c, u :: 0 <= c < i && 0 <= u < |header| ==> !Contains(LowerStr(header[u]), LowerStr(candidates[c]))
    requires forall u :: 0 <= u < t ==> !Contains(LowerStr(header[u]), LowerStr(candidates[i]))
    ensures SubstringPass(header, candidates) == Spelling(header, LowerStr(header[t]))
    ensures var r := SubstringPass(header, candidates);
      r.Some? && LowerStr(r.value) == LowerStr(header[t])
    decreases i
  {
    if i > 0 {
      var p := LowerStr(candidates[0]);
      assert FirstContaining(KeyOrder(header), p) == None by {
        forall a | 0 <= a < |KeyOrder(header)| ensures !Contains(KeyOrder(header)[a], p) {
          var key := KeyOrder(header)[a];
          assert key in KeyOrder(header);
          var u :| 0 <= u < |header| && LowerStr(header[u]) == key;
        }
      }
      SubstringPassFrom(header, candidates[1..], i - 1, t);
    } else {
      FirstContainingKeyOrder(header, LowerStr(candidates[0]), t);
      var s := Spelling(header, LowerStr(header[t]));
      var u :| 0 <= u < |header| && header[u] == s.value && LastLowering(header, LowerStr(header[t]), u);
    }
  }

  /** `find_column` returns `None` exactly when no candidate occurs, up to
      case, inside any header; equality is a special case of occurrence, so
      this covers both passes. */
  lemma FindColumnNone(header: seq<string>, candidates: seq<string>)
    ensures FindColumn(header, candidates) == None <==>
      forall c, u :: 0 <= c < |candidates| && 0 <= u < |header| ==> !Contains(LowerStr(header[u]), LowerStr(candidates[c]))
  {
    if exists c, u :: 0 <= c < |candidates| && 0 <= u < |header| && Contains(LowerStr(header[u]), LowerStr(candidates[c])) {
      var i := FirstOccurring(header, candidates);
      var t :| FirstHolder(header, LowerStr(candidates[i]), t);
      if exists c, u :: 0 <= c < |candidates| && 0 <= u < |header| && LowerStr(header[u]) == LowerStr(candidates[c]) {
        var c, u := FirstExact(header, candidates);
        ExactMatchWins(header, candidates, c, u);
      } else {
        SubstringFallback(header, candidates, i, t);
      }
    } else {
      forall c, u | 0 <= c < |candidates| && 0 <= u < |header|
        ensures LowerStr(header[u]) != LowerStr(candidates[c])
      {
        ContainsTrivial(LowerStr(header[u]));
      }
      ExactPassNone(header, candidates);
      SubstringPassNone(header, candidates);
    }
  }

  lemma {:induction false} SubstringPassNone(header: seq<string>, candidates: seq<string>)
    requires forall c, u :: 0 <= c < |candidates| && 0 <= u < |header| ==> !Contains(LowerStr(header[u]), LowerStr(candidates[c]))
    ensures SubstringPass(header, candidates) == None
    decreases |candidates|
  {
    if candidates != [] {
      var p := LowerStr(candidates[0]);
      forall a | 0 <= a < |KeyOrder(header)| ensures !Contains(KeyOrder(header)[a], p) {
        var key := KeyOrder(header)[a];
        assert key in KeyOrder(header);
        var u :| 0 <= u < |header| && LowerStr(header[u]) == key;
      }
      SubstringPassNone(header, candidates[1..]);
    }
  }

  /** Header `t` is the first whose lowercase contains `p`. */
  ghost predicate FirstHolder(header: seq<string>, p: string, t: int) {
    0 <= t < |header| && Contains(LowerStr(header[t]), p)
    && forall u :: 0 <= u < t ==> !Contains(LowerStr(header[u]), p)
  }

  /** The earliest candidate occurring inside some lowercased header, and the
      first such header. */
  lemma FirstOccurring(header: seq<string>, candidates: seq<string>) returns (i: nat)
    requires exists c, u :: 0 <= c < |candidates| && 0 <= u < |header| && Contains(LowerStr(header[u]), LowerStr(candidates[c]))
    ensures i < |candidates|
    ensures exists t :: FirstHolder(header, LowerStr(candidates[i]), t)
    ensures forall c, u :: 0 <= c < i && 0 <= u < |header| ==> !Contains(LowerStr(header[u]), LowerStr(candidates[c]))
  {
    i := 0;
    while !exists u :: 0 <= u < |header| && Contains(LowerStr(header[u]), LowerStr(candidates[i]))
      invariant i < |candidates|
      invariant forall c, u :: 0 <= c < i && 0 <= u < |header| ==> !Contains(LowerStr(header[u]), LowerStr(candidates[c]))
      decreases |candidates| - i
    {
      i := i + 1;
    }
    var t := 0;
    while !Contains(LowerStr(header[t]), LowerStr(candidates[i]))
      invariant t < |header|
      invariant forall u :: 0 <= u < t ==> !Contains(LowerStr(header[u]), LowerStr(candidates[i]))
      decreases |header| - t
    {
      t := t + 1;
    }
    assert FirstHolder(header, LowerStr(candidates[i]), t);
  }

  /** The earliest candidate equal, up to case, to some header. */
  lemma FirstExact(header: seq<string>, candidates: seq<string>) returns (i: nat, t: nat)
    requires exists c, u :: 0 <= c < |candidates| && 0 <= u < |header| && LowerStr(header[u]) == LowerStr(candidates[c])
    ensures i < |candidates| && t < |header| && LowerStr(header[t]) == LowerStr(candidates[i])
    ensures forall c, u :: 0 <= c < i && 0 <= u < |header| ==> LowerStr(header[u]) != LowerStr(candidates[c])
  {
    i := 0;
    while !exists u :: 0 <= u < |header| && LowerStr(header[u]) == LowerStr(candidates[i])
      invariant i < |candidates|
      invariant forall c, u :: 0 <= c < i && 0 <= u < |header| ==> LowerStr(header[u]) != LowerStr(candidates[c])
      decreases |candidates| - i
    {
      i := i + 1;
    }
    t :| 0 <= t < |header| && LowerStr(header[t]) == LowerStr(candidates[i]);
  }
}
