/** The Python string operations the link and record code relies on:
    substring search (`pat in s`), `s.replace(pat, '')`, `s.split(sep)[0]` and `s.split('/')`. */
module Text {

  /** `pat` occurs in `s` starting at index `i`. */
  predicate OccursAt(s: string, pat: string, i: nat)
  {
    i + |pat| <= |s| && s[i..i + |pat|] == pat
  }

  /** Python's `pat in s`: the empty pattern is in every text, and no text holds a longer
      pattern. */
  predicate Contains(s: string, pat: string)
    ensures pat == [] ==> Contains(s, pat)
    ensures Contains(s, pat) ==> |pat| <= |s|
  {
    assert pat == [] ==> OccursAt(s, pat, 0);
    exists i: nat | i <= |s| :: OccursAt(s, pat, i)
  }

  /** Dropping the first character of `s` shifts every occurrence one place to the left. */
  lemma OccursTail(s: string, pat: string, i: nat)
    requires s != []
    ensures OccursAt(s, pat, i + 1) <==> OccursAt(s[1..], pat, i)
  {
    if i + 1 + |pat| <= |s| {
      assert s[1..][i..i + |pat|] == s[i + 1..i + 1 + |pat|];
    }
  }

  lemma OccursAtStart(s: string, pat: string)
    ensures OccursAt(s, pat, 0) <==> pat <= s
  {
    if |pat| <= |s| {
      assert s[0..|pat|] == s[..|pat|];
    }
  }

  /** When `pat` is not a prefix of `s`, `s` contains `pat` exactly when its tail does. */
  lemma ContainsTail(s: string, pat: string)
    requires s != [] && !(pat <= s)
    ensures Contains(s, pat) <==> Contains(s[1..], pat)
  {
    OccursAtStart(s, pat);
    if Contains(s, pat) {
      var i: nat :| OccursAt(s, pat, i);
      assert i != 0;
      OccursTail(s, pat, i - 1);
    }
    if Contains(s[1..], pat) {
      var i: nat :| OccursAt(s[1..], pat, i);
      OccursTail(s, pat, i);
    }
  }

  /** A string with no `c` in it contains no pattern that has `c` in it. */
  lemma NoCharNoMatch(s: string, pat: string, c: char)
    requires c in pat && c !in s
    ensures !Contains(s, pat)
  {
    var k :| 0 <= k < |pat| && pat[k] == c;
    forall i: nat ensures !OccursAt(s, pat, i) {
      if i + |pat| <= |s| {
        assert s[i..i + |pat|][k] == s[i + k];
      }
    }
  }

  /** Python's `s.replace(pat, '')`: every non-overlapping occurrence of `pat`, scanned from
      the left, is deleted. An empty `pat` leaves `s` as it is. */
  function DeleteAll(s: string, pat: string): (r: string)
    ensures |r| <= |s|
    ensures !Contains(s, pat) ==> r == s
    ensures pat != [] && Contains(s, pat) ==> |r| <= |s| - |pat|
    decreases |s|
  {
    if pat == [] || s == [] then s
    else if pat <= s then
      OccursAtStart(s, pat);
      DeleteAll(s[|pat|..], pat)
    else
      ContainsTail(s, pat);
      [s[0]] + DeleteAll(s[1..], pat)
  }

  /** Deleting a leading copy of `pat` is the same as starting after it. */
  lemma DeleteAllLeading(pat: string, s: string)
    requires pat != []
    ensures DeleteAll(pat + s, pat) == DeleteAll(s, pat)
  {
    assert (pat + s)[|pat|..] == s;
  }

  /** Where `pat` does not start, deletion keeps the first character. */
  lemma DeleteAllStep(s: string, pat: string)
    requires s != [] && pat != [] && !OccursAt(s, pat, 0)
    ensures DeleteAll(s, pat) == [s[0]] + DeleteAll(s[1..], pat)
  {
    OccursAtStart(s, pat);
  }

  /** If no occurrence of `pat` starts inside `x`, none starts inside the tail of `x` once its
      first character is dropped. */
  lemma NoOccurrenceInTail(x: string, y: string, pat: string)
    requires x != []
    requires forall i: nat :: i < |x| ==> !OccursAt(x + y, pat, i)
    ensures forall i: nat :: i < |x| - 1 ==> !OccursAt(x[1..] + y, pat, i)
  {
    var s := x + y;
    assert s[1..] == x[1..] + y;
    forall i: nat | i < |x| - 1 ensures !OccursAt(s[1..], pat, i) {
      OccursTail(s, pat, i);
    }
  }

  /** If no occurrence of `pat` starts inside `x`, deletion leaves `x` untouched. */
  lemma {:induction false} DeleteAllKeepsHead(x: string, y: string, pat: string)
    requires pat != []
    requires forall i: nat :: i < |x| ==> !OccursAt(x + y, pat, i)
    ensures DeleteAll(x + y, pat) == x + DeleteAll(y, pat)
    decreases |x|
  {
    if x == [] {
      assert x + y == y;
    } else {
      var s := x + y;
      var t := x[1..];
      DeleteAllStep(s, pat);
      assert s[0] == x[0] && s[1..] == t + y;
      NoOccurrenceInTail(x, y, pat);
      DeleteAllKeepsHead(t, y, pat);
      ConsAppend(x, DeleteAll(y, pat));
    }
  }

  lemma ConsAppend(x: string, d: string)
    requires x != []
    ensures [x[0]] + (x[1..] + d) == x + d
  {
    assert x == [x[0]] + x[1..];
  }

  /** Python's `s.split(sep)[0]`: the text before the first occurrence of `sep`, or all of `s`.
      Python rejects an empty separator. */
  function Before(s: string, sep: string): (r: string)
    requires sep != []
    ensures r <= s
    ensures forall i: nat :: i < |r| ==> !OccursAt(s, sep, i)
    ensures r == s || OccursAt(s, sep, |r|)
    decreases |s|
  {
    if s == [] then []
    else if sep <= s then
      OccursAtStart(s, sep);
      []
    else
      var rest := Before(s[1..], sep);
      OccursAtStart(s, sep);
      OccursTail(s, sep, |rest|);
      assert forall i: nat :: 0 < i < |rest| + 1 ==> !OccursAt(s, sep, i) by {
        forall i: nat | 0 < i < |rest| + 1 ensures !OccursAt(s, sep, i) {
          OccursTail(s, sep, i - 1);
        }
      }
      [s[0]] + rest
  }

  /** The three properties in `Before`'s contract single out its result: it is the prefix that
      ends at the first occurrence of `sep`. */
  lemma BeforeIsFirstOccurrence(s: string, sep: string, p: string)
    requires sep != []
    requires p <= s
    requires forall i: nat :: i < |p| ==> !OccursAt(s, sep, i)
    requires p == s || OccursAt(s, sep, |p|)
    ensures Before(s, sep) == p
  {
  }

  /** The text before `sep`, when `sep` is glued after `name` and cannot start any earlier. */
  lemma BeforeGlued(name: string, sep: string, rest: string)
    requires sep != []
    requires forall i: nat :: i < |name| ==> !OccursAt(name + sep + rest, sep, i)
    ensures Before(name + sep + rest, sep) == name
  {
    var s := name + sep + rest;
    assert s[|name|..|name| + |sep|] == sep;
    BeforeIsFirstOccurrence(s, sep, name);
  }

  /** Python's `'/'.join(parts)` for a single-character separator. */
  function Join(parts: seq<string>, c: char): string
    requires parts != []
    decreases |parts|
  {
    if |parts| == 1 then parts[0] else parts[0] + [c] + Join(parts[1..], c)
  }

  /** Python's `s.split(c)` for a single-character separator: the pieces between the
      occurrences of `c`, none of which contains `c`, and which `Join` puts back together. */
  function Split(s: string, c: char): (parts: seq<string>)
    ensures parts != []
    ensures forall k | 0 <= k < |parts| :: c !in parts[k]
    ensures Join(parts, c) == s
    decreases |s|
  {
    if s == [] then [[]]
    else
      var rest := Split(s[1..], c);
      if s[0] == c then
        assert ([[]] + rest)[1..] == rest;
        [[]] + rest
      else
        var parts := [[s[0]] + rest[0]] + rest[1..];
        assert parts[1..] == rest[1..];
        assert forall k | 1 <= k < |parts| :: parts[k] == rest[k];
        parts
  }

  /** Splitting a piece free of `c` that is followed by more text. */
  lemma {:induction false} SplitAfterPiece(x: string, t: string, c: char)
    requires c !in x
    ensures Split(x + t, c) == [x + Split(t, c)[0]] + Split(t, c)[1..]
    decreases |x|
  {
    if x != [] {
      assert (x + t)[1..] == x[1..] + t;
      SplitAfterPiece(x[1..], t, c);
      assert [x[0]] + (x[1..] + Split(t, c)[0]) == x + Split(t, c)[0];
    } else {
      var parts := Split(t, c);
      assert x + t == t;
      assert x + parts[0] == parts[0];
      assert [parts[0]] + parts[1..] == parts;
    }
  }

  /** `Split` undoes `Join` when no piece contains the separator. */
  lemma {:induction false} SplitJoin(parts: seq<string>, c: char)
    requires parts != []
    requires forall k | 0 <= k < |parts| :: c !in parts[k]
    ensures Split(Join(parts, c), c) == parts
    decreases |parts|
  {
    if |parts| == 1 {
      SplitAfterPiece(parts[0], [], c);
      assert parts[0] + [] == parts[0];
      assert [parts[0]] == parts;
    } else {
      var tail := Join(parts[1..], c);
      SplitJoin(parts[1..], c);
      assert Split([c] + tail, c) == [[]] + Split(tail, c);
      assert parts[0] + [c] + tail == parts[0] + ([c] + tail);
      SplitAfterPiece(parts[0], [c] + tail, c);
      assert parts[0] + [] == parts[0];
      assert [parts[0]] + parts[1..] == parts;
    }
  }
}
