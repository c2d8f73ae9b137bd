/** The string and list operations the coordinate codec is built from:
    `String.prototype.split` with a string separator (lodash `_.split`),
    `Array.prototype.join` and lodash `_.compact` on lists of strings. */
module JsStrings {

  /** `sep` occurs in `s` starting at index i. */
  predicate OccursAt(s: string, sep: string, i: int) {
    0 <= i && i + |sep| <= |s| && s[i..i + |sep|] == sep
  }

  /** No character of `s` is c. */
  predicate Avoids(s: string, c: char) {
    forall k :: 0 <= k < |s| ==> s[k] != c
  }

  /** `String.prototype.indexOf(sep)`: the first index at which `sep` occurs,
      and -1 when it occurs nowhere. */
  function IndexOf(s: string, sep: string): (r: int)
    ensures r == -1 || OccursAt(s, sep, r)
    ensures forall j :: 0 <= j && (r == -1 || j < r) ==> !OccursAt(s, sep, j)
    decreases |s|
  {
    if |s| < |sep| then -1
    else if s[..|sep|] == sep then 0
    else
      var r := IndexOf(s[1..], sep);
      ShiftNoOccurrence(s, sep, r);
      if r == -1 then -1
      else
        OccursEarlier(s, sep, r);
        r + 1
  }

  lemma OccursLater(s: string, sep: string, j: int)
    requires 1 <= j && OccursAt(s, sep, j)
    ensures OccursAt(s[1..], sep, j - 1)
  {
    assert s[1..][j - 1..j - 1 + |sep|] == s[j..j + |sep|];
  }

  lemma OccursEarlier(s: string, sep: string, r: int)
    requires s != [] && OccursAt(s[1..], sep, r)
    ensures OccursAt(s, sep, r + 1)
  {
    assert s[1..][r..r + |sep|] == s[r + 1..r + 1 + |sep|];
  }

  /** No occurrence at the front, none in the tail before r: none in the whole
      text before r + 1. */
  lemma ShiftNoOccurrence(s: string, sep: string, r: int)
    requires |s| >= |sep| && s[..|sep|] != sep
    requires forall j :: 0 <= j && (r == -1 || j < r) ==> !OccursAt(s[1..], sep, j)
    ensures forall j :: 0 <= j && (r == -1 || j < r + 1) ==> !OccursAt(s, sep, j)
  {
    forall j | 0 <= j && (r == -1 || j < r + 1)
      ensures !OccursAt(s, sep, j)
    {
      if j >= 1 && OccursAt(s, sep, j) {
        OccursLater(s, sep, j);
      }
    }
  }

  /** `s.split(sep)`: the pieces of `s` between the occurrences of `sep`, found
      left to right; an empty separator splits `s` into its characters. */
  function Split(s: string, sep: string): (parts: seq<string>)
    ensures sep != [] ==> parts != []
    ensures sep == [] ==> |parts| == |s| && forall i :: 0 <= i < |s| ==> parts[i] == [s[i]]
    decreases |s|
  {
    if sep == [] then seq(|s|, i requires 0 <= i < |s| => [s[i]])
    else
      var i := IndexOf(s, sep);
      if i == -1 then [s] else [s[..i]] + Split(s[i + |sep|..], sep)
  }

  /** `parts.join(sep)`. */
  function Join(parts: seq<string>, sep: string): string
    decreases |parts|
  {
    if parts == [] then []
    else if |parts| == 1 then parts[0]
    else parts[0] + sep + Join(parts[1..], sep)
  }

  /** `_.compact(parts)` on strings: the non-empty ones, in order. */
  function Compact(parts: seq<string>): (r: seq<string>)
    ensures |r| <= |parts|
    ensures forall i :: 0 <= i < |r| ==> r[i] != []
    ensures (forall i :: 0 <= i < |parts| ==> parts[i] != []) ==> r == parts
    decreases |parts|
  {
    if parts == [] then []
    else if parts[0] == [] then Compact(parts[1..])
    else [parts[0]] + Compact(parts[1..])
  }

  /** `_.compact` drops the empty strings and nothing else: every non-empty
      string occurs in the result as often as in the input. */
  lemma {:induction false} CompactCounts(parts: seq<string>)
    ensures forall x :: x != [] ==> multiset(Compact(parts))[x] == multiset(parts)[x]
    decreases |parts|
  {
    if parts != [] {
      CompactCounts(parts[1..]);
      assert parts == [parts[0]] + parts[1..];
    }
  }

  // ---------------------------------------------------------------------------
  // Split and Join undo each other

  /** The first occurrence of `sep` is at i when it occurs there and nowhere before. */
  lemma IndexOfIs(s: string, sep: string, i: int)
    requires OccursAt(s, sep, i)
    requires forall j :: 0 <= j < i ==> !OccursAt(s, sep, j)
    ensures IndexOf(s, sep) == i
  {
  }

  /** A string without the separator's first character holds no occurrence of it. */
  lemma AvoidsNoOccurrence(s: string, sep: string)
    requires sep != [] && Avoids(s, sep[0])
    ensures IndexOf(s, sep) == -1
  {
  }

  /** Joining the pieces of a split gives back the split string. */
  lemma {:induction false} JoinSplit(s: string, sep: string)
    ensures Join(Split(s, sep), sep) == s
    decreases |s|
  {
    if sep == [] {
      if s != [] {
        var parts := Split(s, sep);
        assert Split(s[1..], sep) == parts[1..];
        JoinSplit(s[1..], sep);
        assert s == [s[0]] + s[1..];
      }
    } else {
      var i := IndexOf(s, sep);
      if i != -1 {
        var rest := s[i + |sep|..];
        JoinSplit(rest, sep);
        assert s == s[..i] + sep + rest by {
          assert s[i..i + |sep|] == sep;
        }
      }
    }
  }

  /** A join of pieces that avoid the separator's first character splits back
      into the same pieces. */
  lemma {:induction false} SplitJoin(parts: seq<string>, sep: string)
    requires sep != [] && parts != []
    requires forall k :: 0 <= k < |parts| ==> Avoids(parts[k], sep[0])
    ensures Split(Join(parts, sep), sep) == parts
    decreases |parts|
  {
    var p := parts[0];
    if |parts| == 1 {
      AvoidsNoOccurrence(p, sep);
    } else {
      var rest := Join(parts[1..], sep);
      var s := p + sep + rest;
      assert s[..|p|] == p;
      assert s[|p|..|p| + |sep|] == sep;
      forall j | 0 <= j < |p|
        ensures !OccursAt(s, sep, j)
      {
        assert s[j] == p[j];
      }
      IndexOfIs(s, sep, |p|);
      assert s[|p| + |sep|..] == rest;
      SplitJoin(parts[1..], sep);
    }
  }

  /** A join of pieces and a separator that all avoid c avoids c. */
  lemma {:induction false} JoinAvoids(parts: seq<string>, sep: string, c: char)
    requires Avoids(sep, c)
    requires forall k :: 0 <= k < |parts| ==> Avoids(parts[k], c)
    ensures Avoids(Join(parts, sep), c)
    decreases |parts|
  {
    if |parts| > 1 {
      JoinAvoids(parts[1..], sep, c);
      var rest := Join(parts[1..], sep);
      var s := parts[0] + sep + rest;
      forall k | 0 <= k < |s|
        ensures s[k] != c
      {
        if k < |parts[0]| {
          assert s[k] == parts[0][k];
        } else if k < |parts[0]| + |sep| {
          assert s[k] == sep[k - |parts[0]|];
        } else {
          assert s[k] == rest[k - |parts[0]| - |sep|];
        }
      }
    }
  }

  // ---------------------------------------------------------------------------
  // Separators at the edges and in runs

  lemma {:induction false} CompactAppend(a: seq<string>, b: seq<string>)
    ensures Compact(a + b) == Compact(a) + Compact(b)
    decreases |a|
  {
    if a == [] {
      assert a + b == b;
    } else {
      var ab := a + b;
      assert ab[0] == a[0] && ab[1..] == a[1..] + b;
      CompactAppend(a[1..], b);
      if a[0] != [] {
        calc {
          Compact(ab);
          [a[0]] + Compact(a[1..] + b);
          [a[0]] + (Compact(a[1..]) + Compact(b));
          ([a[0]] + Compact(a[1..])) + Compact(b);
        }
      }
    }
  }

  /** An empty piece between two runs of pieces is dropped by `_.compact`. */
  lemma CompactDropsEmpty(a: seq<string>, b: seq<string>)
    ensures Compact(a + ([[]] + b)) == Compact(a + b)
  {
    CompactAppend(a, [[]] + b);
    CompactAppend([[]], b);
    CompactAppend(a, b);
  }

  /** Splitting on a one-character separator around one of its occurrences
      splits each side on its own. */
  lemma {:induction false} SplitAround(a: string, c: char, b: string)
    ensures Split(a + [c] + b, [c]) == Split(a, [c]) + Split(b, [c])
    decreases |a|
  {
    var i := IndexOf(a, [c]);
    if i == -1 {
      SplitAroundFirst(a, c, b);
    } else {
      SplitAroundLater(a, c, b, i);
      SplitAround(a[i + 1..], c, b);
    }
  }

  /** The separator is absent from `a`: the first piece is `a` itself. */
  lemma SplitAroundFirst(a: string, c: char, b: string)
    requires IndexOf(a, [c]) == -1
    ensures Split(a + [c] + b, [c]) == [a] + Split(b, [c])
  {
    var s := a + [c] + b;
    assert s[|a|..|a| + 1] == [c];
    forall j | 0 <= j < |a|
      ensures !OccursAt(s, [c], j)
    {
      assert !OccursAt(a, [c], j);
      assert a[j..j + 1] == [a[j]];
      assert s[j..j + 1] == [s[j]];
    }
    IndexOfIs(s, [c], |a|);
    assert s[..|a|] == a;
    assert s[|a| + 1..] == b;
  }

  /** The separator first occurs in `a` at i: so it does in the whole text. */
  lemma SplitAroundLater(a: string, c: char, b: string, i: int)
    requires i != -1 && IndexOf(a, [c]) == i
    ensures Split(a + [c] + b, [c]) == [a[..i]] + Split(a[i + 1..] + [c] + b, [c])
  {
    var s := a + [c] + b;
    assert s[i..i + 1] == a[i..i + 1];
    forall j | 0 <= j < i
      ensures !OccursAt(s, [c], j)
    {
      assert !OccursAt(a, [c], j);
      assert s[j..j + 1] == a[j..j + 1];
    }
    IndexOfIs(s, [c], i);
    assert s[..i] == a[..i];
    assert s[i + 1..] == a[i + 1..] + [c] + b;
  }

  /** A separator at the start of the text contributes only an empty piece. */
  lemma SplitLeading(s: string, sep: string)
    requires sep != []
    ensures Compact(Split(sep + s, sep)) == Compact(Split(s, sep))
  {
    var t := sep + s;
    assert t[..|sep|] == sep;
    assert OccursAt(t, sep, 0);
    IndexOfIs(t, sep, 0);
    assert t[|sep|..] == s;
    assert Split(t, sep) == [[]] + Split(s, sep);
    CompactAppend([[]], Split(s, sep));
  }

  lemma SplitEmpty(c: char)
    ensures Split([], [c]) == [[]]
  {
  }

  /** A separator at the end of the text contributes only an empty piece. */
  lemma SplitTrailing(s: string, c: char)
    ensures Compact(Split(s + [c], [c])) == Compact(Split(s, [c]))
  {
    SplitAround(s, c, []);
    assert s + [c] + [] == s + [c];
    SplitEmpty(c);
    CompactAppend(Split(s, [c]), [[]]);
  }

  /** A text that starts with the separator splits into an empty piece and
      the pieces of the rest. */
  lemma SplitAfterSeparator(c: char, b: string)
    ensures Split([c] + b, [c]) == [[]] + Split(b, [c])
  {
    SplitAround([], c, b);
    assert [] + [c] + b == [c] + b;
    SplitEmpty(c);
  }

  /** A doubled separator contributes only an empty piece. */
  lemma SplitRepeated(a: string, c: char, b: string)
    ensures Compact(Split(a + [c, c] + b, [c])) == Compact(Split(a + [c] + b, [c]))
  {
    assert Split(a + [c, c] + b, [c]) == Split(a, [c]) + Split([c] + b, [c]) by {
      SplitAround(a, c, [c] + b);
      assert a + [c] + ([c] + b) == a + [c, c] + b;
    }
    SplitAfterSeparator(c, b);
    SplitAround(a, c, b);
    CompactDropsEmpty(Split(a, [c]), Split(b, [c]));
  }

  /** No piece of a split holds the separator. */
  lemma {:induction false} SplitPiecesAvoidSeparator(s: string, sep: string)
    requires sep != []
    ensures forall k, j :: 0 <= k < |Split(s, sep)| ==> !OccursAt(Split(s, sep)[k], sep, j)
    decreases |s|
  {
    var i := IndexOf(s, sep);
    if i != -1 {
      var rest := s[i + |sep|..];
      SplitPiecesAvoidSeparator(rest, sep);
      forall j | OccursAt(s[..i], sep, j)
        ensures false
      {
        assert s[..i][j..j + |sep|] == s[j..j + |sep|];
        assert OccursAt(s, sep, j);
      }
    }
  }
}
