/** The report assembly of `XMLUtility.isValidXML`. Parsing and schema
    validation are foreign calls; what reaches this code from them is the
    sequence of problems the parser reports to the installed error handler and,
    optionally, the message of the one exception the validator throws. */
module XmlUtility {
  import opened Wrappers
  import opened Text
  import opened Decimal
  import opened SupplyingMaps

  /** Which `ErrorHandler` callback the parser invoked. */
  datatype Severity = Warning | Error | FatalError

  /** A `SAXParseException` as the handler sees it. The line number is `-1`
      when the parser does not know it. */
  datatype ParseProblem = ParseProblem(severity: Severity, lineNumber: int, message: string)

  const WarningKey := "warning"
  const ErrorKey := "error"
  const FatalErrorKey := "fatalError"
  /** The category of the exception that stopped the validator. */
  const DiscontinueKey := "fatalError (discontinue)"

  /** The map key each callback records under. */
  function Key(severity: Severity): string {
    match severity
    case Warning => WarningKey
    case Error => ErrorKey
    case FatalError => FatalErrorKey
  }

  /** `createLine`. */
  function CreateLine(p: ParseProblem): (line: string)
    ensures StartsWith(line, "line: ")
    ensures |p.message| < |line| && line[|line| - |p.message|..] == p.message
  {
    "line: " + IntToString(p.lineNumber) + ": " + p.message
  }

  /** After the decimal line number of a line comes ": ", so a formatted line
      determines the line number and the message it was made from. */
  lemma CreateLineInjective(p: ParseProblem, q: ParseProblem)
    requires CreateLine(p) == CreateLine(q)
    ensures p.lineNumber == q.lineNumber && p.message == q.message
  {
    var a, b := IntToString(p.lineNumber), IntToString(q.lineNumber);
    LineTail(p);
    LineTail(q);
    if |a| < |b| {
      NumberThenColon(a, b, p.message, q.message, p.lineNumber, q.lineNumber);
    } else if |b| < |a| {
      NumberThenColon(b, a, q.message, p.message, q.lineNumber, p.lineNumber);
    }
    SameLengthSplit(a, b, p.message, q.message);
    IntToStringInjective(p.lineNumber, q.lineNumber);
  }

  /** What follows `"line: "` in a problem line. */
  lemma LineTail(p: ParseProblem)
    ensures CreateLine(p)[6..] == IntToString(p.lineNumber) + ": " + p.message
  {
    var x := IntToString(p.lineNumber) + ": " + p.message;
    assert CreateLine(p) == "line: " + x;
  }

  lemma SameLengthSplit(a: string, b: string, m: string, n: string)
    requires |a| == |b| && a + ": " + m == b + ": " + n
    ensures a == b && m == n
  {
    var x, y := a + ": " + m, b + ": " + n;
    assert a == x[..|a|] && b == y[..|b|];
    assert m == x[|a| + 2..] && n == y[|b| + 2..];
  }

  /** A shorter printed number followed by ": " cannot be a prefix of a longer
      printed number followed by anything: the colon would have to be a digit. */
  lemma NumberThenColon(a: string, b: string, m: string, n: string, i: int, j: int)
    requires a == IntToString(i) && b == IntToString(j) && |a| < |b|
    ensures a + ": " + m != b + ": " + n
  {
    var k := |a|;
    assert k >= 1;
    assert (a + ": " + m)[k] == ':';
    if j < 0 {
      assert b[k] == NatToString(-j)[k - 1];
    } else {
      assert b[k] == NatToString(j)[k];
    }
    assert (b + ": " + n)[k] == b[k];
  }

  /** The problem map: a `SupplyingMap` that starts every list empty. */
  function EmptyProblems(): (m: SupplyingMap<string, seq<string>>)
    ensures m.entries == map[]
    ensures forall k :: m.entrySupplier(k) == []
  {
    NewSupplyingMap(Some((key: string) => [])).value
  }

  /** `validationProblemsMap.get(key).add(line)`. */
  function Record(m: SupplyingMap<string, seq<string>>, key: string, line: string): (r: SupplyingMap<string, seq<string>>)
    ensures r.entrySupplier == m.entrySupplier
    ensures r.entries == m.entries[key := (if key in m.entries then m.entries[key] else m.entrySupplier(key)) + [line]]
  {
    var (list, filled) := Get(m, key);
    filled.(entries := filled.entries[key := list + [line]])
  }

  /** The state `isValidXML` builds up: the problem map and the validity flag. */
  datatype Validation = Validation(problems: SupplyingMap<string, seq<string>>, isValid: bool)

  /** One callback of the error handler: `warning` only records, `error` and
      `fatalError` record and clear the flag. */
  function Handle(v: Validation, p: ParseProblem): (r: Validation)
    ensures r.isValid <==> v.isValid && p.severity == Warning
    ensures r.problems.entrySupplier == v.problems.entrySupplier
    ensures r.problems.entries.Keys == v.problems.entries.Keys + {Key(p.severity)}
    ensures Key(p.severity) in v.problems.entries ==>
      r.problems.entries[Key(p.severity)] == v.problems.entries[Key(p.severity)] + [CreateLine(p)]
    ensures Key(p.severity) !in v.problems.entries ==>
      r.problems.entries[Key(p.severity)] == v.problems.entrySupplier(Key(p.severity)) + [CreateLine(p)]
    ensures forall k :: k in v.problems.entries && k != Key(p.severity) ==> r.problems.entries[k] == v.problems.entries[k]
  {
    var recorded := Record(v.problems, Key(p.severity), CreateLine(p));
    match p.severity
    case Warning => v.(problems := recorded)
    case Error => Validation(recorded, false)
    case FatalError => Validation(recorded, false)
  }

  /** The state after the parser reported `problems` in order. */
  function Parse(problems: seq<ParseProblem>): Validation
    decreases |problems|
  {
    if |problems| == 0 then Validation(EmptyProblems(), true)
    else Handle(Parse(problems[..|problems| - 1]), problems[|problems| - 1])
  }

  /** The `catch` around `validator.validate`: the exception's message is
      recorded, without a line prefix, and the flag is cleared. */
  function Validate(v: Validation, validatorFailure: Option<string>): (r: Validation)
    ensures validatorFailure.None? ==> r == v
    ensures validatorFailure.Some? ==>
      && !r.isValid
      && r.problems.entrySupplier == v.problems.entrySupplier
      && r.problems.entries.Keys == v.problems.entries.Keys + {DiscontinueKey}
      && r.problems.entries[DiscontinueKey] ==
           (if DiscontinueKey in v.problems.entries then v.problems.entries[DiscontinueKey]
            else v.problems.entrySupplier(DiscontinueKey)) + [validatorFailure.value]
      && (forall k :: k in v.problems.entries && k != DiscontinueKey ==> r.problems.entries[k] == v.problems.entries[k])
  {
    match validatorFailure
    case None => v
    case Some(message) => Validation(Record(v.problems, DiscontinueKey, message), false)
  }

  /** The formatted lines of the problems of one severity, in arrival order. */
  function LinesOf(problems: seq<ParseProblem>, severity: Severity): seq<string>
    decreases |problems|
  {
    if |problems| == 0 then []
    else
      var p := problems[|problems| - 1];
      LinesOf(problems[..|problems| - 1], severity) + (if p.severity == severity then [CreateLine(p)] else [])
  }

  /** A problem that makes the document invalid. */
  predicate IsErroneous(p: ParseProblem) {
    p.severity != Warning
  }

  /** After parsing, the map holds under each callback's key exactly the lines of
      that callback's problems in order, and holds the key only if there is such
      a problem; the flag is still set exactly when every problem was a warning. */
  lemma ParseByCategory(problems: seq<ParseProblem>)
    ensures forall k :: k in Parse(problems).problems.entries ==> k in {WarningKey, ErrorKey, FatalErrorKey}
    ensures forall s: Severity ::
      && (Key(s) in Parse(problems).problems.entries <==> |LinesOf(problems, s)| > 0)
      && (Key(s) in Parse(problems).problems.entries ==> Parse(problems).problems.entries[Key(s)] == LinesOf(problems, s))
    ensures Parse(problems).isValid <==> NoErrors(problems)
  {
    ParseKeepsSupplier(problems);
    ParseKeys(problems);
    forall s: Severity
      ensures && (Key(s) in Parse(problems).problems.entries <==> |LinesOf(problems, s)| > 0)
              && (Key(s) in Parse(problems).problems.entries ==> Parse(problems).problems.entries[Key(s)] == LinesOf(problems, s))
    {
      ParseCategory(problems, s);
    }
    ParseValidity(problems);
  }

  /** Every list the parser's map supplies starts empty. */
  lemma {:induction false} ParseKeepsSupplier(problems: seq<ParseProblem>)
    ensures forall k :: Parse(problems).problems.entrySupplier(k) == []
    decreases |problems|
  {
    if |problems| > 0 {
      ParseKeepsSupplier(problems[..|problems| - 1]);
    }
  }

  lemma {:induction false} ParseKeys(problems: seq<ParseProblem>)
    ensures forall k :: k in Parse(problems).problems.entries ==> k in {WarningKey, ErrorKey, FatalErrorKey}
    decreases |problems|
  {
    if |problems| > 0 {
      ParseKeys(problems[..|problems| - 1]);
    }
  }

  lemma {:induction false} ParseCategory(problems: seq<ParseProblem>, s: Severity)
    ensures Key(s) in Parse(problems).problems.entries <==> |LinesOf(problems, s)| > 0
    ensures Key(s) in Parse(problems).problems.entries ==> Parse(problems).problems.entries[Key(s)] == LinesOf(problems, s)
    decreases |problems|
  {
    if |problems| > 0 {
      var init := problems[..|problems| - 1];
      var p := problems[|problems| - 1];
      ParseCategory(init, s);
      ParseKeepsSupplier(init);
      var before := Parse(init).problems;
      var after := Parse(problems).problems;
      assert after == Record(before, Key(p.severity), CreateLine(p));
      if s == p.severity {
        assert LinesOf(problems, s) == LinesOf(init, s) + [CreateLine(p)];
      } else {
        assert Key(s) != Key(p.severity);
        assert LinesOf(problems, s) == LinesOf(init, s);
      }
    }
  }

  lemma {:induction false} ParseValidity(problems: seq<ParseProblem>)
    ensures Parse(problems).isValid <==> NoErrors(problems)
    decreases |problems|
  {
    if |problems| > 0 {
      var init := problems[..|problems| - 1];
      var p := problems[|problems| - 1];
      ParseValidity(init);
      var before := Parse(init);
      assert Parse(problems) == Handle(before, p);
      HandleValidity(before, p);
      NoErrorsSnoc(problems);
    }
  }

  /** No problem is an error or a fatal error. */
  predicate NoErrors(problems: seq<ParseProblem>) {
    forall i :: 0 <= i < |problems| ==> !IsErroneous(problems[i])
  }

  lemma HandleValidity(v: Validation, p: ParseProblem)
    ensures Handle(v, p).isValid == (v.isValid && !IsErroneous(p))
  {
  }

  lemma NoErrorsSnoc(problems: seq<ParseProblem>)
    requires |problems| > 0
    ensures NoErrors(problems) <==> NoErrors(problems[..|problems| - 1]) && !IsErroneous(problems[|problems| - 1])
  {
    var init := problems[..|problems| - 1];
    assert forall i :: 0 <= i < |init| ==> init[i] == problems[i];
  }

  /** `String.compareTo`: the difference of the first differing characters, or
      else of the lengths. */
  function CompareTo(a: string, b: string): (r: int)
    ensures r == 0 <==> a == b
    decreases |a|
  {
    if |a| == 0 || |b| == 0 then |a| - |b|
    else if a[0] != b[0] then (a[0] as int) - (b[0] as int)
    else CompareTo(a[1..], b[1..])
  }

  /** Swapping the arguments negates the result, as `Comparable` requires. */
  lemma {:induction false} CompareToAntisymmetric(a: string, b: string)
    ensures CompareTo(a, b) == -CompareTo(b, a)
    decreases |a|
  {
    if |a| > 0 && |b| > 0 && a[0] == b[0] {
      CompareToAntisymmetric(a[1..], b[1..]);
    }
  }

  lemma {:induction false} PrefixComesFirst(a: string, rest: string)
    requires |rest| > 0
    ensures CompareTo(a, a + rest) < 0
    decreases |a|
  {
    if |a| > 0 {
      assert (a + rest)[1..] == a[1..] + rest;
      PrefixComesFirst(a[1..], rest);
    }
  }

  /** Every key the map can hold, in ascending `compareTo` order. */
  const CategoryOrder: seq<string> := [ErrorKey, FatalErrorKey, DiscontinueKey, WarningKey]

  predicate StrictlyAscending(keys: seq<string>) {
    forall i, j :: 0 <= i < j < |keys| ==> CompareTo(keys[i], keys[j]) < 0
  }

  lemma CategoryOrderAscending()
    ensures StrictlyAscending(CategoryOrder)
  {
    var o := CategoryOrder;
    forall i, j | 0 <= i < j < |o| ensures CompareTo(o[i], o[j]) < 0 {
      if i == 1 && j == 2 {
        assert o[i] == FatalErrorKey && o[j] == DiscontinueKey;
        assert FatalErrorKey + " (discontinue)" == DiscontinueKey;
        PrefixComesFirst(FatalErrorKey, " (discontinue)");
      } else {
        assert o[i][0] < o[j][0];
        FirstCharDecides(o[i], o[j]);
      }
    }
  }

  lemma FirstCharDecides(a: string, b: string)
    requires |a| > 0 && |b| > 0 && a[0] < b[0]
    ensures CompareTo(a, b) < 0
  {
  }

  /** The keys of `order` that `m` holds, in the order of `order`. */
  function Present(m: map<string, seq<string>>, order: seq<string>): (keys: seq<string>)
    ensures forall k :: k in keys ==> k in m && k in order
    decreases |order|
  {
    if |order| == 0 then []
    else (if order[0] in m then [order[0]] else []) + Present(m, order[1..])
  }

  /** Sorting the entries by key: since every key is one of the four
      categories, the sorted keys are the categories the map holds, in
      category order. */
  function SortedKeys(m: map<string, seq<string>>): seq<string> {
    Present(m, CategoryOrder)
  }

  /** The sorted keys list every key of the map once, in strictly ascending
      `compareTo` order, as `sorted` on the entry stream does. */
  lemma SortedKeysSorted(m: map<string, seq<string>>)
    requires forall k :: k in m ==> k in CategoryOrder
    ensures forall k :: k in SortedKeys(m) <==> k in m
    ensures StrictlyAscending(SortedKeys(m))
  {
    CategoryOrderAscending();
    PresentKeepsOrder(m, CategoryOrder);
    PresentCovers(m, CategoryOrder);
  }

  lemma {:induction false} PresentKeepsOrder(m: map<string, seq<string>>, order: seq<string>)
    requires StrictlyAscending(order)
    ensures StrictlyAscending(Present(m, order))
    decreases |order|
  {
    if |order| > 0 {
      AscendingTail(order);
      PresentKeepsOrder(m, order[1..]);
      var rest := Present(m, order[1..]);
      if order[0] in m {
        forall k | k in rest ensures CompareTo(order[0], k) < 0 {
          var j :| 0 <= j < |order[1..]| && order[1..][j] == k;
          assert order[j + 1] == k;
        }
        AscendingCons(order[0], rest);
      } else {
        assert Present(m, order) == rest;
      }
    }
  }

  lemma AscendingTail(keys: seq<string>)
    requires |keys| > 0 && StrictlyAscending(keys)
    ensures StrictlyAscending(keys[1..])
  {
    var tail := keys[1..];
    forall i, j | 0 <= i < j < |tail| ensures CompareTo(tail[i], tail[j]) < 0 {
      assert tail[i] == keys[i + 1] && tail[j] == keys[j + 1];
    }
  }

  lemma AscendingCons(key: string, keys: seq<string>)
    requires StrictlyAscending(keys)
    requires forall k :: k in keys ==> CompareTo(key, k) < 0
    ensures StrictlyAscending([key] + keys)
  {
    var all := [key] + keys;
    forall i, j | 0 <= i < j < |all| ensures CompareTo(all[i], all[j]) < 0 {
      assert all[j] == keys[j - 1];
      if i > 0 {
        assert all[i] == keys[i - 1];
      } else {
        assert keys[j - 1] in keys;
      }
    }
  }

  lemma {:induction false} PresentCovers(m: map<string, seq<string>>, order: seq<string>)
    ensures forall k :: k in Present(m, order) <==> k in order && k in m
    decreases |order|
  {
    if |order| > 0 {
      PresentCovers(m, order[1..]);
      assert forall k :: k in order <==> k == order[0] || k in order[1..];
    }
  }

  /** `key + ": " + cause` for every cause, in order. */
  function Prefixed(key: string, causes: seq<string>): (lines: seq<string>)
    ensures |lines| == |causes|
    ensures forall i :: 0 <= i < |causes| ==> lines[i] == key + ": " + causes[i]
  {
    seq(|causes|, i requires 0 <= i < |causes| => key + ": " + causes[i])
  }

  /** The `flatMap` over the sorted entries: each key's causes, prefixed by
      the key, key after key. */
  function ReportLines(m: map<string, seq<string>>, keys: seq<string>): seq<string>
    decreases |keys|
  {
    if |keys| == 0 then [] else Group(m, keys[0]) + ReportLines(m, keys[1..])
  }

  /** The lines of one entry. */
  function Group(m: map<string, seq<string>>, key: string): seq<string> {
    if key in m then Prefixed(key, m[key]) else []
  }

  /** Keys the map does not hold contribute no lines. */
  lemma {:induction false} AbsentKeysAddNothing(m: map<string, seq<string>>, order: seq<string>)
    ensures ReportLines(m, Present(m, order)) == ReportLines(m, order)
    decreases |order|
  {
    if |order| > 0 {
      AbsentKeysAddNothing(m, order[1..]);
      var rest := Present(m, order[1..]);
      if order[0] in m {
        assert Present(m, order) == [order[0]] + rest;
        assert ([order[0]] + rest)[1..] == rest;
      } else {
        assert Present(m, order) == rest;
        assert Group(m, order[0]) == [];
      }
    }
  }

  /** The map `isValidXML` sorts holds only category keys, so `SortedKeys`
      is the order of the source's `sorted` on its entries. */
  lemma ValidatedKeysSorted(problems: seq<ParseProblem>, validatorFailure: Option<string>)
    ensures var m := Validate(Parse(problems), validatorFailure).problems.entries;
      && (forall k :: k in SortedKeys(m) <==> k in m)
      && StrictlyAscending(SortedKeys(m))
  {
    var m := Validate(Parse(problems), validatorFailure).problems.entries;
    ParseKeys(problems);
    assert forall k :: k in m ==> k in CategoryOrder;
    SortedKeysSorted(m);
  }

  /** The report lines described without the map: errors, then fatal errors,
      then the validator's exception, then warnings, each group in the order
      the problems arrived. */
  function ExpectedLines(problems: seq<ParseProblem>, validatorFailure: Option<string>): seq<string> {
    Prefixed(ErrorKey, LinesOf(problems, Error))
    + Prefixed(FatalErrorKey, LinesOf(problems, FatalError))
    + Prefixed(DiscontinueKey, if validatorFailure.Some? then [validatorFailure.value] else [])
    + Prefixed(WarningKey, LinesOf(problems, Warning))
  }

  /** `isValidXML` after validation: empty when no error, fatal error or
      validator exception occurred (warnings alone are only logged), and
      otherwise the whole report, lines joined by line feeds with no trailing
      one. */
  function IsValidXml(problems: seq<ParseProblem>, validatorFailure: Option<string>): (result: Option<string>)
    ensures result.None? <==> && NoErrors(problems)
                              && validatorFailure.None?
    ensures result.Some? ==> result.value == Join(ExpectedLines(problems, validatorFailure), '\n')
  {
    var v := Validate(Parse(problems), validatorFailure);
    var m := v.problems.entries;
    var validationOutput := Join(ReportLines(m, SortedKeys(m)), '\n');
    ParseByCategory(problems);
    ReportAsExpected(problems, validatorFailure);
    if v.isValid then None else Some(validationOutput)
  }

  /** The map-based report equals the category-by-category description. */
  lemma ReportAsExpected(problems: seq<ParseProblem>, validatorFailure: Option<string>)
    ensures var m := Validate(Parse(problems), validatorFailure).problems.entries;
      ReportLines(m, SortedKeys(m)) == ExpectedLines(problems, validatorFailure)
  {
    var m := Validate(Parse(problems), validatorFailure).problems.entries;
    var discontinued := if validatorFailure.Some? then [validatorFailure.value] else [];
    ValidatedGroup(problems, validatorFailure, Error);
    ValidatedGroup(problems, validatorFailure, FatalError);
    ValidatedGroup(problems, validatorFailure, Warning);
    ValidatedDiscontinue(problems, validatorFailure);
    AbsentKeysAddNothing(m, CategoryOrder);
    ReportLinesOfCategories(m);
  }

  /** Validation leaves the parser's categories as they were. */
  lemma ValidatedGroup(problems: seq<ParseProblem>, validatorFailure: Option<string>, s: Severity)
    ensures var m := Validate(Parse(problems), validatorFailure).problems.entries;
      Group(m, Key(s)) == Prefixed(Key(s), LinesOf(problems, s))
  {
    ParseCategory(problems, s);
    var p := Parse(problems).problems.entries;
    var m := Validate(Parse(problems), validatorFailure).problems.entries;
    assert Key(s) != DiscontinueKey;
    assert Key(s) in m <==> Key(s) in p;
    assert Key(s) in m ==> m[Key(s)] == p[Key(s)];
  }

  /** The validator's exception is the only entry under its key. */
  lemma ValidatedDiscontinue(problems: seq<ParseProblem>, validatorFailure: Option<string>)
    ensures var m := Validate(Parse(problems), validatorFailure).problems.entries;
      Group(m, DiscontinueKey) == Prefixed(DiscontinueKey, if validatorFailure.Some? then [validatorFailure.value] else [])
  {
    ParseKeys(problems);
    ParseKeepsSupplier(problems);
    assert DiscontinueKey !in Parse(problems).problems.entries;
  }

  lemma ReportLinesOfCategories(m: map<string, seq<string>>)
    ensures ReportLines(m, CategoryOrder)
         == Group(m, ErrorKey) + Group(m, FatalErrorKey) + Group(m, DiscontinueKey) + Group(m, WarningKey)
  {
    var o3: seq<string> := [WarningKey];
    var o2 := [DiscontinueKey] + o3;
    var o1 := [FatalErrorKey] + o2;
    var o0 := [ErrorKey] + o1;
    assert o0 == CategoryOrder;
    ReportLinesCons(m, WarningKey, []);
    ReportLinesCons(m, DiscontinueKey, o3);
    ReportLinesCons(m, FatalErrorKey, o2);
    ReportLinesCons(m, ErrorKey, o1);
  }

  lemma ReportLinesCons(m: map<string, seq<string>>, key: string, keys: seq<string>)
    ensures ReportLines(m, [key] + keys) == Group(m, key) + ReportLines(m, keys)
  {
    assert ([key] + keys)[1..] == keys;
  }
}
