/** Joining, splitting, and the byte-wise string order of Go's strings and slices packages. */
module Strings {

  function Join(parts: seq<string>, sep: char): string {
    if |parts| == 0 then ""
    else if |parts| == 1 then parts[0]
    else parts[0] + [sep] + Join(parts[1..], sep)
  }

  function Split(s: string, sep: char): (parts: seq<string>)
    ensures parts != []
    ensures forall part | part in parts :: sep !in part
  {
    if s == "" then [""] else Prepend(s[0], Split(s[1..], sep), sep)
  }

  /** One more character in front of what has been split. */
  function Prepend(c: char, parts: seq<string>, sep: char): seq<string>
    requires parts != []
  {
    if c == sep then [""] + parts else [[c] + parts[0]] + parts[1..]
  }

  lemma PrependToConcat(c: char, x: seq<string>, y: seq<string>, sep: char)
    requires x != []
    ensures Prepend(c, x + y, sep) == Prepend(c, x, sep) + y
  {
    assert (x + y)[1..] == x[1..] + y;
  }

  lemma {:induction false} SplitOfPart(part: string, sep: char)
    requires sep !in part
    ensures Split(part, sep) == [part]
  {
    if part != "" {
      SplitOfPart(part[1..], sep);
      assert part == [part[0]] + part[1..];
    }
  }

  lemma {:induction false} SplitOfConcat(a: string, b: string, sep: char)
    ensures Split(a + [sep] + b, sep) == Split(a, sep) + Split(b, sep)
  {
    var s := a + [sep] + b;
    if a == "" {
      assert s[0] == sep && s[1..] == b;
    } else {
      SplitOfConcat(a[1..], b, sep);
      assert s[0] == a[0] && s[1..] == a[1..] + [sep] + b;
      PrependToConcat(a[0], Split(a[1..], sep), Split(b, sep), sep);
    }
  }

  /** What a joined list splits into: the pieces of each part, in order. */
  function Pieces(parts: seq<string>, sep: char): seq<string> {
    if parts == [] then [] else Split(parts[0], sep) + Pieces(parts[1..], sep)
  }

  lemma {:induction false} SplitOfJoin(parts: seq<string>, sep: char)
    requires parts != []
    ensures Split(Join(parts, sep), sep) == Pieces(parts, sep)
  {
    if |parts| > 1 {
      SplitOfConcat(parts[0], Join(parts[1..], sep), sep);
      SplitOfJoin(parts[1..], sep);
    }
  }

  lemma JoinOfPrepend(c: char, parts: seq<string>, sep: char)
    requires parts != []
    ensures Join(Prepend(c, parts, sep), sep) == [c] + Join(parts, sep)
  {
    var all := Prepend(c, parts, sep);
    if c == sep {
      assert all[1..] == parts;
    } else if |parts| > 1 {
      assert all[1..] == parts[1..];
    }
  }

  lemma {:induction false} JoinSplit(s: string, sep: char)
    ensures Join(Split(s, sep), sep) == s
  {
    if s != "" {
      JoinSplit(s[1..], sep);
      JoinOfPrepend(s[0], Split(s[1..], sep), sep);
      assert s == [s[0]] + s[1..];
    }
  }

  /** Splitting undoes joining, for a non-empty list of parts free of the separator. */
  lemma {:induction false} SplitJoin(parts: seq<string>, sep: char)
    requires parts != []
    requires forall part | part in parts :: sep !in part
    ensures Split(Join(parts, sep), sep) == parts
  {
    SplitOfPart(parts[0], sep);
    if |parts| > 1 {
      SplitOfConcat(parts[0], Join(parts[1..], sep), sep);
      SplitJoin(parts[1..], sep);
    }
  }

  // ---------------------------------------------------------------- the string order

  predicate Less(a: string, b: string) {
    if b == "" then false
    else if a == "" then true
    else if a[0] != b[0] then a[0] < b[0]
    else Less(a[1..], b[1..])
  }

  /** A proper prefix, or smaller at the first difference. */
  ghost predicate Precedes(a: string, b: string) {
    a < b || exists i: nat :: SmallerAt(a, b, i)
  }

  ghost predicate SmallerAt(a: string, b: string, i: nat) {
    i < |a| && i < |b| && a[..i] == b[..i] && a[i] < b[i]
  }

  lemma SharedStart(a: string, b: string, i: nat)
    requires i <= |a| && i <= |b| && a[..i] == b[..i]
    ensures i > 0 ==> a[0] == b[0]
  {
    assert i > 0 ==> a[0] == a[..i][0] && b[0] == b[..i][0];
  }

  lemma {:induction false} LessIff(a: string, b: string)
    ensures Less(a, b) <==> Precedes(a, b)
  {
    if a != "" && b != "" {
      if a[0] == b[0] {
        LessIff(a[1..], b[1..]);
        assert a == [a[0]] + a[1..] && b == [b[0]] + b[1..];
        if i: nat :| SmallerAt(a[1..], b[1..], i) {
          assert a[..i + 1] == [a[0]] + a[1..][..i] && b[..i + 1] == [b[0]] + b[1..][..i];
          assert SmallerAt(a, b, i + 1);
        }
        if i: nat :| SmallerAt(a, b, i) {
          assert a[1..][..i - 1] == a[..i][1..] && b[1..][..i - 1] == b[..i][1..];
          assert SmallerAt(a[1..], b[1..], i - 1);
        }
        assert a < b <==> a[1..] < b[1..];
      } else {
        assert a[..0] == b[..0];
        assert a[0] < b[0] ==> SmallerAt(a, b, 0);
        forall i: nat | SmallerAt(a, b, i)
          ensures i == 0
        {
          SharedStart(a, b, i);
        }
      }
    }
  }

  lemma {:induction false} LessTrichotomy(a: string, b: string)
    ensures Less(a, b) || a == b || Less(b, a)
    ensures !(Less(a, b) && (a == b || Less(b, a)))
  {
    if a != "" && b != "" && a[0] == b[0] {
      LessTrichotomy(a[1..], b[1..]);
      assert a == [a[0]] + a[1..] && b == [b[0]] + b[1..];
    }
  }

  lemma {:induction false} LessTransitive(a: string, b: string, c: string)
    requires Less(a, b) && Less(b, c)
    ensures Less(a, c)
  {
    if a != "" && a[0] == b[0] && b[0] == c[0] {
      LessTransitive(a[1..], b[1..], c[1..]);
    }
  }

  predicate AtMost(a: string, b: string) {
    a == b || Less(a, b)
  }

  ghost function Elements(parts: seq<string>): set<string> {
    set part | part in parts
  }

  /** Sorted, with no two equal. */
  ghost predicate StrictlySorted(parts: seq<string>) {
    forall i, j | 0 <= i < j < |parts| :: Less(parts[i], parts[j])
  }

  ghost predicate Sorted(parts: seq<string>) {
    forall i, j | 0 <= i < j < |parts| :: AtMost(parts[i], parts[j])
  }

  /** A set of strings has one strictly sorted listing. */
  lemma {:induction false} StrictlySortedIsUnique(a: seq<string>, b: seq<string>)
    requires StrictlySorted(a) && StrictlySorted(b) && Elements(a) == Elements(b)
    ensures a == b
  {
    assert b != [] ==> b[0] in Elements(b);
    if a != [] {
      assert a[0] in Elements(a);
      var i :| 0 <= i < |b| && b[i] == a[0];
      assert b[0] in Elements(b);
      var j :| 0 <= j < |a| && a[j] == b[0];
      LessTrichotomy(a[0], b[0]);
      assert a[0] == b[0];
      TailElements(a);
      TailElements(b);
      StrictlySortedIsUnique(a[1..], b[1..]);
      assert a == [a[0]] + a[1..] && b == [b[0]] + b[1..];
    }
  }

  lemma TailElements(a: seq<string>)
    requires a != [] && StrictlySorted(a)
    ensures StrictlySorted(a[1..]) && Elements(a[1..]) == Elements(a) - {a[0]}
  {
    forall x | x in Elements(a) - {a[0]}
      ensures x in Elements(a[1..])
    {
      var i :| 0 <= i < |a| && a[i] == x;
      assert a[1..][i - 1] == x;
    }
    forall x | x in Elements(a[1..])
      ensures x in Elements(a) - {a[0]}
    {
      var i :| 0 <= i < |a| - 1 && a[1..][i] == x;
      assert a[i + 1] == x;
      LessTrichotomy(a[0], a[i + 1]);
    }
  }

  // ---------------------------------------------------------------- sorting and compacting

  function Insert(sorted: seq<string>, x: string): (r: seq<string>)
    ensures multiset(r) == multiset(sorted) + multiset{x}
  {
    if sorted == [] then [x]
    else if Less(sorted[0], x) then
      assert sorted == [sorted[0]] + sorted[1..];
      [sorted[0]] + Insert(sorted[1..], x)
    else [x] + sorted
  }

  function Sort(parts: seq<string>): (r: seq<string>)
    ensures multiset(r) == multiset(parts)
  {
    if parts == [] then []
    else
      assert parts == [parts[0]] + parts[1..];
      Insert(Sort(parts[1..]), parts[0])
  }

  lemma {:induction false} InsertSorts(sorted: seq<string>, x: string)
    requires Sorted(sorted)
    ensures Sorted(Insert(sorted, x))
  {
    if sorted != [] {
      var r := Insert(sorted, x);
      if Less(sorted[0], x) {
        InsertSorts(sorted[1..], x);
        forall j | 0 < j < |r|
          ensures AtMost(r[0], r[j])
        {
          assert r[j] in multiset(Insert(sorted[1..], x));
          assert r[j] == x || r[j] in multiset(sorted[1..]);
        }
      } else {
        LessTrichotomy(sorted[0], x);
        forall j | 0 < j < |r|
          ensures AtMost(r[0], r[j])
        {
          if j > 1 && x != sorted[0] && sorted[0] != r[j] {
            LessTransitive(x, sorted[0], r[j]);
          }
        }
      }
    }
  }

  lemma {:induction false} SortSorts(parts: seq<string>)
    ensures Sorted(Sort(parts))
  {
    if parts != [] {
      SortSorts(parts[1..]);
      InsertSorts(Sort(parts[1..]), parts[0]);
    }
  }

  /** Drops every string equal to the one before it. */
  function Compact(parts: seq<string>): seq<string> {
    if |parts| <= 1 then parts
    else if parts[0] == parts[1] then Compact(parts[1..])
    else [parts[0]] + Compact(parts[1..])
  }

  lemma {:induction false} CompactOfSorted(parts: seq<string>)
    requires Sorted(parts)
    ensures StrictlySorted(Compact(parts)) && Elements(Compact(parts)) == Elements(parts)
    ensures parts != [] ==> Compact(parts) != [] && Compact(parts)[0] == parts[0]
  {
    if |parts| > 1 {
      var rest := parts[1..];
      CompactOfSorted(rest);
      assert parts == [parts[0]] + rest;
      assert Elements(parts) == {parts[0]} + Elements(rest);
      if parts[0] != parts[1] {
        var kept := Compact(rest);
        assert Less(parts[0], kept[0]);
        forall j | 0 <= j < |kept|
          ensures Less(parts[0], kept[j])
        {
          if j > 0 {
            LessTransitive(parts[0], kept[0], kept[j]);
          }
        }
        assert Elements([parts[0]] + kept) == {parts[0]} + Elements(kept);
      } else {
        assert parts[0] in Elements(rest);
      }
    }
  }

  lemma SortKeepsElements(parts: seq<string>)
    ensures Elements(Sort(parts)) == Elements(parts)
  {
    forall x
      ensures x in Elements(Sort(parts)) <==> x in Elements(parts)
    {
      assert x in Sort(parts) <==> x in multiset(Sort(parts));
      assert x in parts <==> x in multiset(parts);
    }
  }
}
