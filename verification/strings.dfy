/**
  String helpers used by the locator's error message: `string.Join` with a
  separator, the position of every joined part, and the inverse split on a
  single separator character.
 */
module Strings {

  /** True when `sub` appears in `s` starting at position `i`. */
  predicate OccursAt(s: string, sub: string, i: nat) {
    i + |sub| <= |s| && s[i..i + |sub|] == sub
  }

  /**
    Where `parts[k]` starts once `parts` are joined with `sep`: every earlier
    part followed by one separator. Defined independently of `Join`.
   */
  function Offset(sep: string, parts: seq<string>, k: nat): nat
    requires k <= |parts|
  {
    if k == 0 then 0 else Offset(sep, parts, k - 1) + |parts[k - 1]| + |sep|
  }

  /** `string.Join(sep, parts)`: the parts in order, one `sep` between neighbours. */
  function Join(sep: string, parts: seq<string>): (r: string)
    ensures |parts| == 0 ==> r == ""
    ensures |parts| > 0 ==> |r| == Offset(sep, parts, |parts| - 1) + |parts[|parts| - 1]|
    decreases |parts|
  {
    if |parts| == 0 then ""
    else if |parts| == 1 then parts[0]
    else
      var rest := Join(sep, parts[1..]);
      OffsetOfTail(sep, parts, |parts| - 1);
      parts[0] + sep + rest
  }

  /** Joining three parts, as the locator does. */
  lemma JoinThree(sep: string, a: string, b: string, c: string)
    ensures Join(sep, [a, b, c]) == a + sep + b + sep + c
  {
    assert [a, b, c][1..] == [b, c];
    assert [b, c][1..] == [c];
    assert Join(sep, [c]) == c;
    assert Join(sep, [b, c]) == b + sep + c;
    assert Join(sep, [a, b, c]) == a + sep + (b + sep + c);
  }

  /** Offsets in `parts` are those in `parts[1..]` shifted by the first part and one separator. */
  lemma {:induction false} OffsetOfTail(sep: string, parts: seq<string>, k: nat)
    requires 1 <= k <= |parts|
    ensures Offset(sep, parts, k) == |parts[0]| + |sep| + Offset(sep, parts[1..], k - 1)
    decreases k
  {
    if k > 1 {
      OffsetOfTail(sep, parts, k - 1);
    }
  }

  /** An occurrence in `s` at `i` is one in `prefix + s` at `at`, shifted by `|prefix|`. */
  lemma OccursAtShift(prefix: string, s: string, sub: string, i: nat, at: nat)
    requires OccursAt(s, sub, i) && at == |prefix| + i
    ensures OccursAt(prefix + s, sub, at)
  {
    assert (prefix + s)[at..at + |sub|] == s[i..i + |sub|];
  }

  /** An occurrence in `s` is still one after appending `suffix`. */
  lemma OccursAtExtend(s: string, suffix: string, sub: string, i: nat)
    requires OccursAt(s, sub, i)
    ensures OccursAt(s + suffix, sub, i)
  {
    assert (s + suffix)[i..i + |sub|] == s[i..i + |sub|];
  }

  /** `Join` places every part at its offset: the joined string lists the parts in order. */
  lemma {:induction false} JoinPlacesParts(sep: string, parts: seq<string>, k: nat)
    requires k < |parts|
    ensures OccursAt(Join(sep, parts), parts[k], Offset(sep, parts, k))
    decreases |parts|
  {
    if |parts| > 1 {
      var rest := Join(sep, parts[1..]);
      assert Join(sep, parts) == parts[0] + sep + rest;
      if k == 0 {
        assert (parts[0] + sep + rest)[0..|parts[0]|] == parts[0];
      } else {
        JoinPlacesParts(sep, parts[1..], k - 1);
        OffsetOfTail(sep, parts, k);
        OccursAtShift(parts[0] + sep, rest, parts[k], Offset(sep, parts[1..], k - 1), Offset(sep, parts, k));
      }
    }
  }

  /** `Join` puts one separator right after every part but the last. */
  lemma {:induction false} JoinPlacesSeparators(sep: string, parts: seq<string>, k: nat)
    requires k + 1 < |parts|
    ensures OccursAt(Join(sep, parts), sep, Offset(sep, parts, k) + |parts[k]|)
    decreases |parts|
  {
    var rest := Join(sep, parts[1..]);
    assert Join(sep, parts) == parts[0] + sep + rest;
    if k == 0 {
      assert (parts[0] + sep + rest)[|parts[0]|..|parts[0]| + |sep|] == sep;
    } else {
      JoinPlacesSeparators(sep, parts[1..], k - 1);
      OffsetOfTail(sep, parts, k);
      OccursAtShift(parts[0] + sep, rest, sep, Offset(sep, parts[1..], k - 1) + |parts[k]|, Offset(sep, parts, k) + |parts[k]|);
    }
  }

  /** Position of the first `c` in `s`. */
  function IndexOf(s: string, c: char): (i: nat)
    requires c in s
    ensures i < |s| && s[i] == c && c !in s[..i]
  {
    if s[0] == c then 0
    else
      var i := 1 + IndexOf(s[1..], c);
      assert s[..i] == [s[0]] + s[1..][..i - 1];
      i
  }

  /** The first `c` in `s` is at `i` exactly when `c` is at `i` and not before it. */
  lemma IndexOfIsFirst(s: string, c: char, i: nat)
    requires i < |s| && s[i] == c && c !in s[..i]
    ensures IndexOf(s, c) == i
  {
  }

  /** The pieces of `s` between occurrences of `c` (`s.Split(c)`); never empty. */
  function Split(s: string, c: char): (r: seq<string>)
    ensures |r| > 0
    ensures forall k :: 0 <= k < |r| ==> c !in r[k]
    decreases |s|
  {
    if c !in s then [s]
    else
      var i := IndexOf(s, c);
      [s[..i]] + Split(s[i + 1..], c)
  }

  /** Splitting a join of separator-free parts gives the parts back. */
  lemma {:induction false} SplitJoin(parts: seq<string>, c: char)
    requires |parts| > 0
    requires forall k :: 0 <= k < |parts| ==> c !in parts[k]
    ensures Split(Join([c], parts), c) == parts
    decreases |parts|
  {
    if |parts| > 1 {
      var rest := Join([c], parts[1..]);
      var s := parts[0] + [c] + rest;
      assert Join([c], parts) == s;
      assert s[..|parts[0]|] == parts[0];
      assert c in s by {
        assert s[|parts[0]|] == c;
      }
      IndexOfIsFirst(s, c, |parts[0]|);
      assert s[|parts[0]| + 1..] == rest;
      assert Split(s, c) == [parts[0]] + Split(rest, c);
      SplitJoin(parts[1..], c);
      assert parts == [parts[0]] + parts[1..];
    }
  }

  /** Joining the pieces of a split gives the original string back. */
  lemma {:induction false} JoinSplit(s: string, c: char)
    ensures Join([c], Split(s, c)) == s
    decreases |s|
  {
    if c in s {
      var i := IndexOf(s, c);
      var pieces := Split(s[i + 1..], c);
      JoinSplit(s[i + 1..], c);
      var r := [s[..i]] + pieces;
      assert r[1..] == pieces;
      assert Join([c], r) == s[..i] + [c] + s[i + 1..];
      assert s == s[..i] + [c] + s[i + 1..];
    }
  }
}
