/** String operations of `java.lang.String` and `java.util.stream.Collectors`
    that the utilities rely on: `contains`, `replace(target, "")`, and joining
    and splitting on a one-character separator. */
module Text {

  /** `s` begins with `p` (`String.startsWith`). */
  predicate StartsWith(s: string, p: string) {
    |p| <= |s| && s[..|p|] == p
  }

  /** `String.contains`: `p` occurs somewhere in `s`. */
  predicate Contains(s: string, p: string)
    ensures Contains(s, p) ==> |p| <= |s|
    ensures |p| == 0 ==> Contains(s, p)
    decreases |s|
  {
    StartsWith(s, p) || (|s| > 0 && Contains(s[1..], p))
  }

  /** `p` occurs in `s` starting at index `i`. */
  ghost predicate OccursAt(s: string, p: string, i: int) {
    0 <= i && i + |p| <= |s| && s[i..i + |p|] == p
  }

  /** The recursive `Contains` is exactly "there is an index where `p` occurs". */
  lemma {:induction false} ContainsIffOccurs(s: string, p: string)
    ensures Contains(s, p) <==> exists i :: OccursAt(s, p, i)
    decreases |s|
  {
    if Contains(s, p) {
      if StartsWith(s, p) {
        assert OccursAt(s, p, 0);
      } else {
        ContainsIffOccurs(s[1..], p);
        var i :| OccursAt(s[1..], p, i);
        assert s[1..][i..i + |p|] == s[i + 1..i + 1 + |p|];
        assert OccursAt(s, p, i + 1);
      }
    }
    if exists i :: OccursAt(s, p, i) {
      var i :| OccursAt(s, p, i);
      if i == 0 {
        assert StartsWith(s, p);
      } else {
        assert s[1..][i - 1..i - 1 + |p|] == s[i..i + |p|];
        assert OccursAt(s[1..], p, i - 1);
        ContainsIffOccurs(s[1..], p);
      }
    }
  }

  /** `String.replace(target, "")`: scans left to right and deletes every
      non-overlapping occurrence of `target`. */
  function RemoveAll(s: string, target: string): (r: string)
    requires |target| > 0
    ensures |r| <= |s|
    ensures !Contains(s, target) ==> r == s
    ensures Contains(s, target) ==> |r| <= |s| - |target|
    decreases |s|
  {
    if |s| == 0 then ""
    else if StartsWith(s, target) then RemoveAll(s[|target|..], target)
    else [s[0]] + RemoveAll(s[1..], target)
  }

  /** Up to the first occurrence of `target` the string is kept, that
      occurrence is deleted, and the scan resumes right after it. Together with
      `!Contains(s, target) ==> RemoveAll(s, target) == s` this says that every
      occurrence is deleted, left to right and without overlap. */
  lemma RemoveAllFirstOccurrence(s: string, target: string, i: nat)
    requires |target| > 0 && OccursAt(s, target, i)
    requires forall j :: 0 <= j < i ==> !OccursAt(s, target, j)
    ensures RemoveAll(s, target) == s[..i] + RemoveAll(s[i + |target|..], target)
  {
    var p, u := s[..i], s[i..];
    assert s == p + u;
    RemoveAllKeepsPrefix(p, u, target);
    assert u[0..|target|] == s[i..i + |target|];
    DeleteAtStart(u, target);
    assert u[0 + |target|..] == s[i + |target|..];
  }

  /** A prefix in which no occurrence of `target` starts is kept as it is. */
  lemma {:induction false} RemoveAllKeepsPrefix(p: string, u: string, target: string)
    requires |target| > 0
    requires forall j :: 0 <= j < |p| ==> !OccursAt(p + u, target, j)
    ensures RemoveAll(p + u, target) == p + RemoveAll(u, target)
    decreases |p|
  {
    if |p| == 0 {
      assert p + u == u;
    } else {
      var w := p + u;
      assert w[1..] == p[1..] + u;
      assert !OccursAt(w, target, 0);
      StartsWithIsOccurrenceAtZero(w, target);
      RemoveAllKeepsFirst(w, target);
      forall j | 0 <= j < |p| - 1
        ensures !OccursAt(p[1..] + u, target, j)
      {
        OccursInTail(w, target, j);
      }
      RemoveAllKeepsPrefix(p[1..], u, target);
      var rest := RemoveAll(u, target);
      assert RemoveAll(w[1..], target) == p[1..] + rest;
      assert w[0] == p[0];
      ConsPrefix(p, rest);
    }
  }

  lemma ConsPrefix(p: string, r: string)
    requires |p| > 0
    ensures [p[0]] + (p[1..] + r) == p + r
  {
    assert [p[0]] + p[1..] == p;
  }

  lemma StartsWithIsOccurrenceAtZero(s: string, target: string)
    ensures StartsWith(s, target) <==> OccursAt(s, target, 0)
  {
  }

  /** An occurrence at the very start is deleted and the scan resumes after it. */
  lemma DeleteAtStart(s: string, target: string)
    requires |target| > 0 && OccursAt(s, target, 0)
    ensures RemoveAll(s, target) == RemoveAll(s[0 + |target|..], target)
  {
    StartsWithIsOccurrenceAtZero(s, target);
  }

  lemma RemoveAllKeepsFirst(s: string, target: string)
    requires |target| > 0 && |s| > 0 && !StartsWith(s, target)
    ensures RemoveAll(s, target) == [s[0]] + RemoveAll(s[1..], target)
  {
  }

  /** An occurrence in `s[1..]` is an occurrence in `s` one place later. */
  lemma OccursInTail(s: string, target: string, j: nat)
    requires |s| > 0
    ensures OccursAt(s[1..], target, j) <==> OccursAt(s, target, j + 1)
  {
    if j + |target| <= |s| - 1 {
      assert s[1..][j..j + |target|] == s[j + 1..j + 1 + |target|];
    }
  }

  /** Deleting occurrences never adds characters. */
  lemma {:induction false} RemoveAllSubMultiset(s: string, target: string)
    requires |target| > 0
    ensures multiset(RemoveAll(s, target)) <= multiset(s)
    decreases |s|
  {
    if |s| > 0 {
      if StartsWith(s, target) {
        var tail := s[|target|..];
        RemoveAllSubMultiset(tail, target);
        SuffixSubMultiset(s, |target|);
      } else {
        var tail := s[1..];
        var r := RemoveAll(tail, target);
        RemoveAllSubMultiset(tail, target);
        assert RemoveAll(s, target) == [s[0]] + r;
        ConsSubMultiset(s, r);
      }
    }
  }

  lemma SuffixSubMultiset(s: string, n: nat)
    requires n <= |s|
    ensures multiset(s[n..]) <= multiset(s)
  {
    assert s == s[..n] + s[n..];
  }

  lemma ConsSubMultiset(s: string, r: string)
    requires |s| > 0 && multiset(r) <= multiset(s[1..])
    ensures multiset([s[0]] + r) <= multiset(s)
  {
    assert s == [s[0]] + s[1..];
  }

  /** A one-character string occurs exactly when the character does. */
  lemma {:induction false} ContainsCharIffIn(s: string, c: char)
    ensures Contains(s, [c]) <==> c in s
    decreases |s|
  {
    if |s| > 0 {
      ContainsCharIffIn(s[1..], c);
      assert c in s <==> s[0] == c || c in s[1..];
    }
  }

  /** Removing a single character commutes with concatenation. */
  lemma {:induction false} RemoveCharDistributes(a: string, b: string, c: char)
    ensures RemoveAll(a + b, [c]) == RemoveAll(a, [c]) + RemoveAll(b, [c])
    decreases |a|
  {
    if |a| == 0 {
      assert a + b == b;
    } else {
      assert (a + b)[1..] == a[1..] + b;
      assert StartsWith(a + b, [c]) <==> StartsWith(a, [c]);
      RemoveCharDistributes(a[1..], b, c);
    }
  }

  /** Removing a single character deletes exactly that character: no copy of
      it remains, and every other character keeps its multiplicity. */
  lemma {:induction false} RemoveCharContents(s: string, c: char)
    ensures c !in RemoveAll(s, [c])
    ensures multiset(RemoveAll(s, [c])) == multiset(s)[c := 0]
    decreases |s|
  {
    if |s| > 0 {
      var tail := s[1..];
      var r := RemoveAll(tail, [c]);
      RemoveCharContents(tail, c);
      assert s == [s[0]] + tail;
      assert multiset(s) == multiset{s[0]} + multiset(tail);
      if s[0] == c {
        assert StartsWith(s, [c]);
        assert RemoveAll(s, [c]) == r;
        ClearAddedCopy(c, multiset(tail));
      } else {
        assert RemoveAll(s, [c]) == [s[0]] + r;
        assert multiset([s[0]] + r) == multiset{s[0]} + multiset(r);
        ClearOtherCopy(s[0], c, multiset(tail));
      }
    }
  }

  lemma ClearAddedCopy(c: char, m: multiset<char>)
    ensures (multiset{c} + m)[c := 0] == m[c := 0]
  {
  }

  lemma ClearOtherCopy(x: char, c: char, m: multiset<char>)
    requires x != c
    ensures (multiset{x} + m)[c := 0] == multiset{x} + m[c := 0]
  {
  }

  /** Collectors.joining with a one-character separator: the parts in order,
      one separator between neighbours, none leading or trailing. */
  function Join(parts: seq<string>, sep: char): (r: string)
    ensures |parts| == 0 ==> r == ""
    ensures |parts| > 0 ==> StartsWith(r, parts[0])
    decreases |parts|
  {
    if |parts| == 0 then ""
    else if |parts| == 1 then parts[0]
    else parts[0] + [sep] + Join(parts[1..], sep)
  }

  /** After the first part comes a separator when there is a second part, and
      the joined string ends with the last part. */
  lemma {:induction false} JoinSeparatorsAndLast(parts: seq<string>, sep: char)
    ensures |parts| > 1 ==> |parts[0]| < |Join(parts, sep)| && Join(parts, sep)[|parts[0]|] == sep
    ensures |parts| > 0 ==>
      (&& |parts[|parts| - 1]| <= |Join(parts, sep)|
       && Join(parts, sep)[|Join(parts, sep)| - |parts[|parts| - 1]|..] == parts[|parts| - 1])
    decreases |parts|
  {
    if |parts| > 1 {
      var rest := Join(parts[1..], sep);
      JoinSeparatorsAndLast(parts[1..], sep);
      assert Join(parts, sep) == parts[0] + [sep] + rest;
      assert Join(parts, sep)[|parts[0]|] == sep;
      var last := parts[|parts| - 1];
      assert parts[1..][|parts[1..]| - 1] == last;
      assert Join(parts, sep)[|Join(parts, sep)| - |last|..] == rest[|rest| - |last|..];
    }
  }

  /** Appending a part adds exactly one separator before it. */
  lemma {:induction false} JoinSnoc(parts: seq<string>, p: string, sep: char)
    requires |parts| > 0
    ensures Join(parts + [p], sep) == Join(parts, sep) + [sep] + p
    decreases |parts|
  {
    if |parts| == 1 {
      assert parts + [p] == [parts[0], p];
    } else {
      assert (parts + [p])[1..] == parts[1..] + [p];
      JoinSnoc(parts[1..], p, sep);
    }
  }

  /** Splits `s` at every occurrence of `sep`; the inverse of `Join`. */
  function Split(s: string, sep: char): (parts: seq<string>)
    ensures |parts| > 0
    decreases |s|
  {
    if |s| == 0 then [""]
    else
      var rest := Split(s[1..], sep);
      if s[0] == sep then [""] + rest
      else [[s[0]] + rest[0]] + rest[1..]
  }

  /** A string without the separator splits into itself. */
  lemma {:induction false} SplitWithoutSeparator(s: string, sep: char)
    requires sep !in s
    ensures Split(s, sep) == [s]
    decreases |s|
  {
    if |s| > 0 {
      SplitWithoutSeparator(s[1..], sep);
      assert [s[0]] + s[1..] == s;
    }
  }

  /** Splitting at the first separator peels off the part before it. */
  lemma {:induction false} SplitAtFirstSeparator(a: string, b: string, sep: char)
    requires sep !in a
    ensures Split(a + [sep] + b, sep) == [a] + Split(b, sep)
    decreases |a|
  {
    if |a| == 0 {
      assert a + [sep] + b == [sep] + b;
      assert ([sep] + b)[1..] == b;
    } else {
      assert (a + [sep] + b)[1..] == a[1..] + [sep] + b;
      SplitAtFirstSeparator(a[1..], b, sep);
      assert [a[0]] + a[1..] == a;
    }
  }

  /** Round trip: joining parts that do not contain the separator and
      splitting again gives the parts back. */
  lemma {:induction false} SplitJoin(parts: seq<string>, sep: char)
    requires |parts| > 0
    requires forall i :: 0 <= i < |parts| ==> sep !in parts[i]
    ensures Split(Join(parts, sep), sep) == parts
    decreases |parts|
  {
    if |parts| == 1 {
      SplitWithoutSeparator(parts[0], sep);
    } else {
      SplitJoin(parts[1..], sep);
      SplitAtFirstSeparator(parts[0], Join(parts[1..], sep), sep);
      assert [parts[0]] + parts[1..] == parts;
    }
  }
}
