/** String operations the job relies on: Python's case-sensitive substring
    test `sub in s`, and `', '.join(parts)` together with its inverse. */
module Text {

  predicate IsPrefix(p: string, s: string)
  {
    |p| <= |s| && s[..|p|] == p
  }

  /** `sub in s`: `sub` starts at some position of `s`, tried left to right. */
  predicate Contains(s: string, sub: string)
  {
    ContainsFrom(s, sub, 0)
  }

  /** `sub` starts at some position `i` or later of `s`. */
  predicate ContainsFrom(s: string, sub: string, i: nat)
    decreases |s| - i
  {
    i + |sub| <= |s| && (s[i..i + |sub|] == sub || ContainsFrom(s, sub, i + 1))
  }

  /** `s[i:i+len(sub)] == sub`, the positional reading of substring containment. */
  ghost predicate OccursAt(s: string, sub: string, i: int)
  {
    0 <= i && i + |sub| <= |s| && s[i..i + |sub|] == sub
  }

  /** The scan from position `i` finds exactly the occurrences at `i` or later. */
  lemma {:induction false} ContainsFromIffOccurs(s: string, sub: string, i: nat)
    ensures ContainsFrom(s, sub, i) <==> exists j :: i <= j && OccursAt(s, sub, j)
    decreases |s| - i
  {
    if i + |sub| <= |s| {
      ContainsFromIffOccurs(s, sub, i + 1);
      if s[i..i + |sub|] == sub {
        assert OccursAt(s, sub, i);
      }
      forall j | i <= j && OccursAt(s, sub, j) && j != i
        ensures i + 1 <= j
      {
      }
    }
  }

  /** The scanning definition agrees with the positional one, both ways. */
  lemma ContainsIffOccurs(s: string, sub: string)
    ensures Contains(s, sub) <==> exists i :: OccursAt(s, sub, i)
  {
    ContainsFromIffOccurs(s, sub, 0);
  }

  /** A substring stays a substring whatever is put around the text. */
  lemma ContainsInContext(p: string, s: string, q: string, sub: string)
    requires Contains(s, sub)
    ensures Contains(p + s + q, sub)
  {
    ContainsIffOccurs(s, sub);
    var i :| OccursAt(s, sub, i);
    assert (p + s + q)[|p| + i..|p| + i + |sub|] == s[i..i + |sub|];
    assert OccursAt(p + s + q, sub, |p| + i);
    ContainsIffOccurs(p + s + q, sub);
  }

  /** A text that lacks some character of `sub` has `sub` at no position. */
  lemma NoOccurrenceWithoutChar(s: string, sub: string, c: char)
    requires c in sub && c !in s
    ensures forall j :: !OccursAt(s, sub, j)
  {
    var k :| 0 <= k < |sub| && sub[k] == c;
    forall j
      ensures !OccursAt(s, sub, j)
    {
      if 0 <= j && j + |sub| <= |s| {
        assert s[j..j + |sub|][k] == s[j + k];
      }
    }
  }

  /** A slice that lies in the first part of a concatenation ignores the rest. */
  lemma SliceOfPrefix(p: string, q: string, i: nat, j: nat)
    requires i <= j <= |p|
    ensures (p + q)[i..j] == p[i..j]
  {
  }

  /** Where the middle of a three-part concatenation lies in it. */
  lemma Enclosed(a: string, b: string, c: string)
    ensures IsPrefix(a, a + b + c)
    ensures (a + b + c)[|a|..|a + b + c| - |c|] == b
  {
  }

  /** `sep.join(parts)` in Python: the parts in order, `sep` between neighbours. */
  function Join(parts: seq<string>, sep: string): string
  {
    if |parts| == 0 then ""
    else if |parts| == 1 then parts[0]
    else parts[0] + sep + Join(parts[1..], sep)
  }

  /** The separator of every list the job renders into SQL. */
  const ListSep: string := ", "

  /** Cuts a rendered list at every `", "`; the reading of a list rendered
      with `Join(_, ListSep)`. */
  function SplitList(s: string): (parts: seq<string>)
    ensures |parts| > 0
    decreases |s|
  {
    if |s| == 0 then [""]
    else if |s| >= 2 && s[0] == ',' && s[1] == ' ' then [""] + SplitList(s[2..])
    else
      var rest := SplitList(s[1..]);
      [[s[0]] + rest[0]] + rest[1..]
  }

  /** A text without commas is a one-item list. */
  lemma {:induction false} SplitListNoComma(x: string)
    requires ',' !in x
    ensures SplitList(x) == [x]
    decreases |x|
  {
    if |x| > 0 {
      assert x[0] in x;
      assert forall k :: 0 <= k < |x[1..]| ==> x[1..][k] == x[k + 1];
      assert ',' !in x[1..];
      SplitListNoComma(x[1..]);
      assert [x[0]] + x[1..] == x;
    }
  }

  /** A comma-free item followed by the separator is cut off as one item. */
  lemma {:induction false} SplitListItem(x: string, t: string)
    requires ',' !in x
    ensures SplitList(x + ListSep + t) == [x] + SplitList(t)
    decreases |x|
  {
    var s := x + ListSep + t;
    if |x| == 0 {
      assert s == ", " + t;
      assert s[2..] == t;
    } else {
      assert x[0] in x;
      assert s[0] == x[0];
      assert forall k :: 0 <= k < |x[1..]| ==> x[1..][k] == x[k + 1];
      assert ',' !in x[1..];
      assert s[1..] == x[1..] + ListSep + t;
      SplitListItem(x[1..], t);
      assert [x[0]] + x[1..] == x;
    }
  }

  /** Rendering a non-empty list of comma-free items and reading it back gives
      the items, in order: the rendered list loses, adds and reorders nothing. */
  lemma {:induction false} SplitJoinRoundTrip(parts: seq<string>)
    requires |parts| > 0
    requires forall k :: 0 <= k < |parts| ==> ',' !in parts[k]
    ensures SplitList(Join(parts, ListSep)) == parts
    decreases |parts|
  {
    if |parts| == 1 {
      SplitListNoComma(parts[0]);
    } else {
      SplitJoinRoundTrip(parts[1..]);
      SplitListItem(parts[0], Join(parts[1..], ListSep));
      assert [parts[0]] + parts[1..] == parts;
    }
  }

  /** A list rendered between two texts reads back as its items. */
  lemma ReadBackEnclosed(front: string, parts: seq<string>, close: string)
    requires |parts| > 0
    requires forall k :: 0 <= k < |parts| ==> ',' !in parts[k]
    ensures var s := front + Join(parts, ListSep) + close;
      SplitList(s[|front|..|s| - |close|]) == parts
  {
    Enclosed(front, Join(parts, ListSep), close);
    SplitJoinRoundTrip(parts);
  }

  /** Where the third of five concatenated texts lies. */
  lemma ThirdOfFive(a: string, b: string, c: string, d: string, e: string)
    ensures (a + b + c + d + e)[|a| + |b|..|a| + |b| + |c|] == c
  {
    assert a + b + c + d + e == (a + b + c) + (d + e);
    SliceOfPrefix(a + b + c, d + e, |a| + |b|, |a| + |b| + |c|);
  }
}
