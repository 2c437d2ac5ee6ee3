/** Matching a cron rule against an instant: `_matchField` on one field pattern, the
    split of a rule into its six fields (with the 5-field form shifted up), and the
    left-to-right, short-circuit test of all six fields. */
module CronMatch {
  import opened Wrappers
  import opened JsText
  import Civil

  /** What `_getNextDate` can throw. */
  datatype CronError =
    | UndefinedField   // a rule with fewer than five fields: `undefined.includes` is a TypeError
    | SearchExhausted  // 'Could not find next execution time'

  /** JavaScript number comparisons, false whenever an operand is NaN (`None`). */
  predicate Lt(a: Option<int>, b: Option<int>) { a.Some? && b.Some? && a.value < b.value }
  predicate Gt(a: Option<int>, b: Option<int>) { a.Some? && b.Some? && a.value > b.value }
  predicate Le(a: Option<int>, b: Option<int>) { a.Some? && b.Some? && a.value <= b.value }
  predicate Ge(a: Option<int>, b: Option<int>) { a.Some? && b.Some? && a.value >= b.value }

  /** `a - b`, NaN when either is NaN. */
  function Minus(a: Option<int>, b: Option<int>): Option<int> {
    if a.Some? && b.Some? then Some(a.value - b.value) else None
  }

  /** `a % b === 0`: NaN operands, and `b` zero (the remainder is NaN), give false; a
      zero remainder does not depend on the rounding of the division. */
  predicate RemainderIsZero(a: Option<int>, b: Option<int>) {
    a.Some? && b.Some? && b.value != 0 && a.value % b.value == 0
  }

  /** Whether the `/` branch of `_matchField` returns rather than falling through: its
      range part is `*` or contains a `-`. */
  predicate StepBranchReturns(pattern: string) {
    '/' in pattern && (Split(pattern, '/')[0] == "*" || '-' in Split(pattern, '/')[0])
  }

  /** `_matchField(value, pattern)`: wildcard, then comma list, then step, then range,
      then exact number. The `min` and `max` arguments of the source are never read. */
  function MatchField(value: int, pattern: string): bool
    decreases |pattern|
  {
    if pattern == "*" then true
    else if ',' in pattern then
      var items := Split(pattern, ',');
      exists i | 0 <= i < |items| :: MatchField(value, Trim(items[i]))
    else if StepBranchReturns(pattern) then MatchStep(value, pattern)
    else if '-' in pattern then MatchRange(value, pattern)
    else Some(value) == ParseInt(pattern)
  }

  /** The `/` branch, when it returns: a wildcard step tests `value % s === 0`; `a-b/s` rejects
      values outside a..b, then tests `(value - a) % s === 0`. */
  function MatchStep(value: int, pattern: string): (m: bool)
    requires StepBranchReturns(pattern)
    ensures m ==> ParseInt(Split(pattern, '/')[1]).Some? && ParseInt(Split(pattern, '/')[1]).value != 0
  {
    var parts := Split(pattern, '/');
    var stepNum := ParseInt(parts[1]);
    if parts[0] == "*" then RemainderIsZero(Some(value), stepNum)
    else
      var bounds := Split(parts[0], '-');
      var start, end := ParseInt(bounds[0]), ParseInt(bounds[1]);
      if Lt(Some(value), start) || Gt(Some(value), end) then false
      else RemainderIsZero(Minus(Some(value), start), stepNum)
  }

  /** The `-` branch: `value >= a && value <= b`. */
  function MatchRange(value: int, pattern: string): (m: bool)
    requires '-' in pattern
    ensures m ==> ParseInt(Split(pattern, '-')[0]).Some? && ParseInt(Split(pattern, '-')[1]).Some?
    ensures m ==> ParseInt(Split(pattern, '-')[0]).value <= value <= ParseInt(Split(pattern, '-')[1]).value
  {
    var bounds := Split(pattern, '-');
    var start, end := ParseInt(bounds[0]), ParseInt(bounds[1]);
    Ge(Some(value), start) && Le(Some(value), end)
  }

  /** The field patterns `_getNextDate` matches, in the order second, minute, hour, day
      of month, month, day of week. A rule of five parts gets second `0` and its parts
      move up one place; any other rule takes its first six parts, and a part it lacks
      is `undefined` (`None`). */
  function Fields(rule: string): (f: seq<Option<string>>)
    ensures |f| == 6
  {
    FieldsOf(SplitWs(Trim(rule)))
  }

  /** The fields destructured from the parts of a rule. */
  function FieldsOf(parts: seq<string>): (f: seq<Option<string>>)
    ensures |f| == 6
    ensures |parts| == 5 ==> f[0] == Some("0") && forall i :: 1 <= i < 6 ==> f[i] == Some(parts[i - 1])
    ensures |parts| != 5 ==> forall i :: 0 <= i < 6 ==> f[i] == (if i < |parts| then Some(parts[i]) else None)
  {
    if |parts| == 5 then [Some("0"), Some(parts[0]), Some(parts[1]), Some(parts[2]), Some(parts[3]), Some(parts[4])]
    else [Part(parts, 0), Part(parts, 1), Part(parts, 2), Part(parts, 3), Part(parts, 4), Part(parts, 5)]
  }

  /** Destructuring `parts` into a variable: `undefined` past the end. */
  function Part(parts: seq<string>, i: nat): Option<string> {
    if i < |parts| then Some(parts[i]) else None
  }

  /** The calendar fields of instant `t`, in the order of `Fields`. */
  function FieldValues(t: int): (v: seq<int>)
    ensures |v| == 6
    ensures 0 <= v[0] < 60 && 0 <= v[1] < 60 && 0 <= v[2] < 24
    ensures 1 <= v[3] <= 31 && 1 <= v[4] <= 12 && 0 <= v[5] < 7
  {
    var d := Civil.DateOf(t);
    [d.second, d.minute, d.hour, d.day, d.month, d.weekday]
  }

  /** The `&&` chain of six `_matchField` calls: fields are tried left to right and the
      first one that fails ends the test; reaching an `undefined` field throws. */
  function EvalFields(values: seq<int>, fields: seq<Option<string>>): (r: Result<bool, CronError>)
    requires |values| == |fields|
    ensures r == Ok(true) <==> forall i :: 0 <= i < |fields| ==> fields[i].Some? && MatchField(values[i], fields[i].value)
    ensures r.Err? ==> (r.error == UndefinedField &&
              exists k :: 0 <= k < |fields| && fields[k].None? &&
                (forall i :: 0 <= i < k ==> fields[i].Some? && MatchField(values[i], fields[i].value)))
    ensures (forall i :: 0 <= i < |fields| ==> fields[i].Some?) ==> r.Ok?
    decreases |fields|
  {
    if fields == [] then Ok(true)
    else if fields[0].None? then Err(UndefinedField)
    else if !MatchField(values[0], fields[0].value) then Ok(false)
    else
      var r := EvalFields(values[1..], fields[1..]);
      assert forall i :: 1 <= i < |fields| ==> fields[i] == fields[1..][i - 1] && values[i] == values[1..][i - 1];
      if r.Err? then UndefinedAfterMatch(values, fields); r else r
  }

  /** An undefined field reached after the first field, which matches, is reached from
      the start too. */
  lemma UndefinedAfterMatch(values: seq<int>, fields: seq<Option<string>>)
    requires |values| == |fields| >= 1 && fields[0].Some? && MatchField(values[0], fields[0].value)
    requires exists k :: 0 <= k < |fields| - 1 && fields[1..][k].None? &&
               (forall i :: 0 <= i < k ==> fields[1..][i].Some? && MatchField(values[1..][i], fields[1..][i].value))
    ensures exists k :: 0 <= k < |fields| && fields[k].None? &&
              (forall i :: 0 <= i < k ==> fields[i].Some? && MatchField(values[i], fields[i].value))
  {
    var k :| 0 <= k < |fields| - 1 && fields[1..][k].None? &&
               (forall i :: 0 <= i < k ==> fields[1..][i].Some? && MatchField(values[1..][i], fields[1..][i].value));
    assert fields[k + 1].None?;
    forall i | 0 <= i < k + 1 ensures fields[i].Some? && MatchField(values[i], fields[i].value) {
      if i > 0 {
        assert fields[i] == fields[1..][i - 1] && values[i] == values[1..][i - 1];
      }
    }
  }

  /** Whether the rule's fields match at instant `t` (seconds since the epoch). */
  function EvalAt(fields: seq<Option<string>>, t: int): (r: Result<bool, CronError>)
    requires |fields| == 6
    ensures r == Ok(true) <==> forall i :: 0 <= i < 6 ==> fields[i].Some? && MatchField(FieldValues(t)[i], fields[i].value)
    ensures (forall i :: 0 <= i < 6 ==> fields[i].Some?) ==> r.Ok?
  {
    EvalFields(FieldValues(t), fields)
  }

  /** The chain throws when it reaches an undefined field with every earlier one matching. */
  lemma {:induction false} ReachesUndefined(values: seq<int>, fields: seq<Option<string>>, k: nat)
    requires |values| == |fields| && k < |fields| && fields[k].None?
    requires forall i :: 0 <= i < k ==> fields[i].Some? && MatchField(values[i], fields[i].value)
    ensures EvalFields(values, fields) == Err(UndefinedField)
    decreases k
  {
    if k > 0 {
      assert fields[0].Some? && MatchField(values[0], fields[0].value);
      ReachesUndefined(values[1..], fields[1..], k - 1);
    }
  }

  // ---------------------------------------------------------------------------
  // What a field pattern means

  /** The pattern forms the matcher recognises, with decimal numbers. */
  datatype Atom =
    | Any                                  // *
    | Exact(n: nat)                        // n
    | Span(lo: nat, hi: nat)               // lo-hi
    | Every(step: nat)                     // */step
    | SpanEvery(lo: nat, hi: nat, step: nat) // lo-hi/step

  function AtomText(a: Atom): string {
    match a
    case Any => "*"
    case Exact(n) => NatStr(n)
    case Span(lo, hi) => NatStr(lo) + "-" + NatStr(hi)
    case Every(s) => "*/" + NatStr(s)
    case SpanEvery(lo, hi, s) => NatStr(lo) + "-" + NatStr(hi) + "/" + NatStr(s)
  }

  /** The values an atom stands for; a step of 0 stands for none. */
  predicate AtomHolds(value: int, a: Atom) {
    match a
    case Any => true
    case Exact(n) => value == n
    case Span(lo, hi) => lo <= value <= hi
    case Every(s) => s != 0 && value % s == 0
    case SpanEvery(lo, hi, s) => s != 0 && lo <= value <= hi && (value - lo) % s == 0
  }

  lemma NatStrHasNo(n: nat, c: char)
    requires !IsDigit(c)
    ensures c !in NatStr(n)
  {
    forall i | 0 <= i < |NatStr(n)| ensures NatStr(n)[i] != c {
      assert IsDigit(NatStr(n)[i]);
    }
  }

  /** Every pattern form matches exactly the values it stands for. */
  lemma AtomMatches(value: int, a: Atom)
    ensures MatchField(value, AtomText(a)) == AtomHolds(value, a)
  {
    match a
    case Any =>
      AnyMatches(value);
    case Exact(n) =>
      ExactMatches(value, n);
    case Span(lo, hi) =>
      SpanMatches(value, lo, hi);
    case Every(s) =>
      EveryMatches(value, s);
    case SpanEvery(lo, hi, s) =>
      assert AtomHolds(value, a) == (s != 0 && lo <= value <= hi && (value - lo) % s == 0);
      SpanEveryMatches(value, lo, hi, s);
  }

  lemma AnyMatches(value: int)
    ensures MatchField(value, "*")
  {
  }

  /** A number matches exactly the value it denotes. */
  lemma ExactMatches(value: int, n: nat)
    ensures MatchField(value, NatStr(n)) <==> value == n
  {
    var p := NatStr(n);
    NatStrHasNo(n, ','); NatStrHasNo(n, '/'); NatStrHasNo(n, '-');
    assert p != "*" by { NatStrHasNo(n, '*'); assert p[0] != '*'; }
    assert !StepBranchReturns(p);
    ParseNatStr(n, []);
    assert p + [] == p;
  }

  /** Any pattern that is not `*`, a list, a step or a range matches exactly the value
      `parseInt` reads from it, and nothing when it reads NaN. */
  lemma ExactPattern(value: int, p: string)
    requires p != "*" && ',' !in p && '/' !in p && '-' !in p
    ensures MatchField(value, p) <==> ParseInt(p) == Some(value)
  {
    assert !StepBranchReturns(p);
  }

  /** `lo-hi` matches the values from lo to hi inclusive. */
  lemma SpanMatches(value: int, lo: nat, hi: nat)
    ensures MatchField(value, NatStr(lo) + "-" + NatStr(hi)) <==> lo <= value <= hi
  {
    SpanPatternMatches(value, lo, hi, NatStr(lo) + "-" + NatStr(hi));
  }

  /** `SpanMatches` for the pattern `p` spelt out. */
  lemma SpanPatternMatches(value: int, lo: nat, hi: nat, p: string)
    requires p == NatStr(lo) + "-" + NatStr(hi)
    ensures MatchField(value, p) <==> lo <= value <= hi
  {
    SpanText(value, lo, hi, p);
    NatRange(value, lo, hi, p);
  }

  /** A range whose two bounds are numbers holds between them. */
  lemma NatRange(value: int, lo: nat, hi: nat, p: string)
    requires '-' in p && Split(p, '-') == [NatStr(lo), NatStr(hi)]
    ensures MatchRange(value, p) <==> lo <= value <= hi
  {
    RangeBounds(value, p, NatStr(lo), NatStr(hi));
    ParseNat(lo);
    ParseNat(hi);
  }

  /** The range branch compares the value with the parses of the two bounds. */
  lemma RangeBounds(value: int, p: string, a: string, b: string)
    requires '-' in p && Split(p, '-') == [a, b]
    ensures MatchRange(value, p) == (Ge(Some(value), ParseInt(a)) && Le(Some(value), ParseInt(b)))
  {
  }

  /** `lo-hi` takes the range branch, and its bounds are the two numbers. */
  lemma SpanText(value: int, lo: nat, hi: nat, p: string)
    requires p == NatStr(lo) + "-" + NatStr(hi)
    ensures '-' in p && Split(p, '-') == [NatStr(lo), NatStr(hi)]
    ensures MatchField(value, p) == MatchRange(value, p)
  {
    var a, b := NatStr(lo), NatStr(hi);
    NatStrHasNo(lo, ','); NatStrHasNo(hi, ','); NatStrHasNo(lo, '/'); NatStrHasNo(hi, '/');
    NatStrHasNo(lo, '-'); NatStrHasNo(hi, '-'); NatStrHasNo(lo, '*');
    assert p == a + ['-'] + b;
    assert ',' !in p && '/' !in p && '-' in p;
    assert p != "*" by { assert p[0] == a[0]; }
    assert !StepBranchReturns(p);
    SplitTwo(a, b, '-');
  }

  /** A wildcard step, `*` then a slash and `s`, matches the multiples of s, and nothing
      when s is 0. */
  lemma EveryMatches(value: int, s: nat)
    ensures MatchField(value, "*/" + NatStr(s)) <==> s != 0 && value % s == 0
  {
    var p := "*/" + NatStr(s);
    NatStrHasNo(s, ','); NatStrHasNo(s, '/');
    assert ',' !in p;
    assert p == "*" + "/" + NatStr(s);
    SplitTwo("*", NatStr(s), '/');
    assert StepBranchReturns(p);
    ParseNatStr(s, []);
    assert NatStr(s) + [] == NatStr(s);
  }

  /** `lo-hi/s` matches every s-th value from lo up to hi, and nothing when s is 0. */
  lemma SpanEveryMatches(value: int, lo: nat, hi: nat, s: nat)
    ensures MatchField(value, NatStr(lo) + "-" + NatStr(hi) + "/" + NatStr(s))
        <==> s != 0 && lo <= value <= hi && (value - lo) % s == 0
  {
    var p := NatStr(lo) + "-" + NatStr(hi) + "/" + NatStr(s);
    SpanEveryText(value, lo, hi, s);
    StepSpanValues(value, p, Some(lo), Some(hi), Some(s));
    StepSpanArith(value, lo, hi, s, MatchStep(value, p));
  }

  /** How `_matchField` reads the text `lo-hi/s`: it takes the step branch, with range
      `lo-hi` and step `s`. */
  lemma SpanEveryText(value: int, lo: nat, hi: nat, s: nat)
    ensures var p := NatStr(lo) + "-" + NatStr(hi) + "/" + NatStr(s);
      && StepBranchReturns(p) && Split(p, '/')[0] != "*"
      && ParseInt(Split(p, '/')[1]) == Some(s)
      && ParseInt(Split(Split(p, '/')[0], '-')[0]) == Some(lo)
      && ParseInt(Split(Split(p, '/')[0], '-')[1]) == Some(hi)
      && MatchField(value, p) == MatchStep(value, p)
  {
    var a, b, c := NatStr(lo), NatStr(hi), NatStr(s);
    NatStrHasNo(hi, '/'); NatStrHasNo(hi, '-'); NatStrHasNo(hi, ',');
    NatStrHasNo(s, '/'); NatStrHasNo(s, ',');
    RangeStepText(value, lo, b, c, a + "-" + b + "/" + c);
    ParseNat(lo); ParseNat(hi); ParseNat(s);
  }

  lemma ParseNat(n: nat)
    ensures ParseInt(NatStr(n)) == Some(n)
  {
    ParseNatStr(n, []);
    assert NatStr(n) + [] == NatStr(n);
  }

  /** How `_matchField` splits a text `lo-b/c`, where `b` and `c` hold no `/`, `-` or `,`:
      the step branch returns, with range `lo-b` and step `c`. */
  lemma RangeStepText(value: int, lo: nat, b: string, c: string, p: string)
    requires '/' !in b && '-' !in b && ',' !in b && '/' !in c && ',' !in c
    requires p == NatStr(lo) + "-" + b + "/" + c
    ensures Split(p, '/') == [NatStr(lo) + "-" + b, c]
    ensures Split(NatStr(lo) + "-" + b, '-') == [NatStr(lo), b]
    ensures StepBranchReturns(p) && Split(p, '/')[0] != "*"
    ensures MatchField(value, p) == MatchStep(value, p)
  {
    var a := NatStr(lo);
    var range := a + "-" + b;
    RangeStepSplit(lo, b, c);
    assert MatchField(value, p) == MatchStep(value, p) by {
      NatStrHasNo(lo, ',');
      assert ',' !in p by { assert p == a + ['-'] + b + ['/'] + c; }
      assert p != "*" by { assert p[0] == range[0]; }
    }
  }

  lemma RangeStepSplit(lo: nat, b: string, c: string)
    requires '/' !in b && '-' !in b && '/' !in c
    ensures var range := NatStr(lo) + "-" + b;
      && Split(range + "/" + c, '/') == [range, c] && Split(range, '-') == [NatStr(lo), b]
      && range != "*" && range[0] == NatStr(lo)[0] && '-' in range
  {
    var a := NatStr(lo);
    var range := a + "-" + b;
    NatStrHasNo(lo, '/'); NatStrHasNo(lo, '-'); NatStrHasNo(lo, '*');
    assert range == a + ['-'] + b && range + "/" + c == range + ['/'] + c;
    SplitTwo(range, c, '/');
    SplitTwo(a, b, '-');
    assert range[0] == a[0];
    assert range[|a|] == '-';
  }

  lemma StepSpanArith(value: int, lo: nat, hi: nat, s: nat, m: bool)
    requires m == if Lt(Some(value), Some(lo)) || Gt(Some(value), Some(hi)) then false
      else RemainderIsZero(Minus(Some(value), Some(lo)), Some(s))
    ensures m == (s != 0 && lo <= value <= hi && (value - lo) % s == 0)
  {
  }

  /** What the stepped-range branch computes once its three numbers are parsed. */
  lemma StepSpanValues(value: int, p: string, start: Option<int>, end: Option<int>, step: Option<int>)
    requires StepBranchReturns(p) && Split(p, '/')[0] != "*"
    requires ParseInt(Split(p, '/')[1]) == step
    requires ParseInt(Split(Split(p, '/')[0], '-')[0]) == start
    requires ParseInt(Split(Split(p, '/')[0], '-')[1]) == end
    ensures MatchStep(value, p) ==
      if Lt(Some(value), start) || Gt(Some(value), end) then false
      else RemainderIsZero(Minus(Some(value), start), step)
  {
  }

  /** Splitting `a + [c] + b` at `c` gives `a` and `b` when neither holds a `c`. */
  lemma SplitTwo(a: string, b: string, c: char)
    requires c !in a && c !in b
    ensures Split(a + [c] + b, c) == [a, b]
  {
    SplitJoin([a, b], c);
    assert Join([a, b], c) == a + [c] + Join([b], c);
  }

  /** The text of an atom is non-empty, has no white space and no comma. */
  lemma AtomTextPlain(a: Atom)
    ensures AtomText(a) != [] && NoSpace(AtomText(a)) && ',' !in AtomText(a)
  {
    match a
    case Any =>
    case Exact(n) => NatPlain(n);
    case Span(lo, hi) =>
      NatPlain(lo); NatPlain(hi);
      PlainConcat(NatStr(lo), "-");
      PlainConcat(NatStr(lo) + "-", NatStr(hi));
    case Every(st) =>
      NatPlain(st);
      PlainConcat("*/", NatStr(st));
    case SpanEvery(lo, hi, st) =>
      NatPlain(lo); NatPlain(hi); NatPlain(st);
      PlainConcat(NatStr(lo), "-");
      PlainConcat(NatStr(lo) + "-", NatStr(hi));
      PlainConcat(NatStr(lo) + "-" + NatStr(hi), "/");
      PlainConcat(NatStr(lo) + "-" + NatStr(hi) + "/", NatStr(st));
  }

  lemma NatPlain(n: nat)
    ensures NoSpace(NatStr(n)) && ',' !in NatStr(n)
  {
    NatStrHasNo(n, ',');
    forall i | 0 <= i < |NatStr(n)| ensures !IsSpace(NatStr(n)[i]) {
      assert IsDigit(NatStr(n)[i]);
    }
  }

  lemma PlainConcat(a: string, b: string)
    requires NoSpace(a) && NoSpace(b) && ',' !in a && ',' !in b
    ensures NoSpace(a + b) && ',' !in a + b
  {
    forall i | 0 <= i < |a + b| ensures !IsSpace((a + b)[i]) {
      if i < |a| { assert (a + b)[i] == a[i]; } else { assert (a + b)[i] == b[i - |a|]; }
    }
  }

  lemma TrimPlain(s: string)
    requires NoSpace(s)
    ensures Trim(s) == s
  {
    assert TrimStart(s) == s;
  }

  function AtomTexts(items: seq<Atom>): (texts: seq<string>)
    ensures |texts| == |items| && forall i :: 0 <= i < |items| ==> texts[i] == AtomText(items[i])
  {
    if items == [] then [] else [AtomText(items[0])] + AtomTexts(items[1..])
  }

  /** The items written out with commas between them. */
  function ListText(items: seq<Atom>): string
    requires |items| >= 1
  {
    Join(AtomTexts(items), ',')
  }

  /** A comma list matches a value exactly when one of its items does. */
  lemma ListMatches(value: int, items: seq<Atom>)
    requires |items| >= 1
    ensures MatchField(value, ListText(items)) <==> exists i :: 0 <= i < |items| && AtomHolds(value, items[i])
  {
    var texts := AtomTexts(items);
    ItemTexts(value, items, texts);
    var m := MatchField(value, ListText(items));
    assert m <==> exists i :: 0 <= i < |texts| && MatchField(value, texts[i]) by {
      if |items| == 1 {
        assert ListText(items) == texts[0];
      } else {
        ListBranch(value, texts);
      }
    }
    if m {
      var i :| 0 <= i < |texts| && MatchField(value, texts[i]);
      assert AtomHolds(value, items[i]);
    } else {
      forall i | 0 <= i < |items| ensures !AtomHolds(value, items[i]) {
        assert !MatchField(value, texts[i]);
      }
    }
  }

  lemma ItemTexts(value: int, items: seq<Atom>, texts: seq<string>)
    requires |items| >= 1 && texts == AtomTexts(items)
    ensures forall i :: 0 <= i < |items| ==> Trim(texts[i]) == texts[i] && ',' !in texts[i]
    ensures forall i :: 0 <= i < |items| ==> MatchField(value, texts[i]) == AtomHolds(value, items[i])
  {
    forall i | 0 <= i < |items|
      ensures Trim(texts[i]) == texts[i] && ',' !in texts[i]
      ensures MatchField(value, texts[i]) == AtomHolds(value, items[i])
    {
      AtomTextPlain(items[i]);
      TrimPlain(texts[i]);
      AtomMatches(value, items[i]);
    }
  }

  /** With two or more comma-free items, the list branch splits the joined text back
      into the items. */
  lemma ListBranch(value: int, texts: seq<string>)
    requires |texts| >= 2 && forall i :: 0 <= i < |texts| ==> Trim(texts[i]) == texts[i] && ',' !in texts[i]
    ensures MatchField(value, Join(texts, ',')) <==> exists i :: 0 <= i < |texts| && MatchField(value, texts[i])
  {
    var p := Join(texts, ',');
    assert p == texts[0] + [','] + Join(texts[1..], ',');
    assert ',' in p by { assert p[|texts[0]|] == ','; }
    assert p != "*" by { assert ',' !in "*"; }
    forall t | t in texts ensures ',' !in t { }
    SplitJoin(texts, ',');
    assert MatchField(value, p) <==> exists i :: 0 <= i < |texts| && MatchField(value, Trim(texts[i]));
  }

  /** A zero step never matches when the range is `*` or has a `-`: the remainder of a
      division by zero is NaN. */
  lemma StepZeroNeverMatches(value: int, range: string, step: string)
    requires range == "*" || '-' in range
    requires '/' !in range && '/' !in step && ',' !in range && ',' !in step
    requires ParseInt(step) == Some(0)
    ensures !MatchField(value, range + "/" + step)
  {
    var p := range + "/" + step;
    StepZeroText(range, step, p);
    assert !MatchStep(value, p);
  }

  /** `range/step` takes the step branch, and its parts are the range and the step. */
  lemma StepZeroText(range: string, step: string, p: string)
    requires range == "*" || '-' in range
    requires '/' !in range && '/' !in step && ',' !in range && ',' !in step
    requires p == range + "/" + step
    ensures p != "*" && ',' !in p && StepBranchReturns(p) && Split(p, '/') == [range, step]
  {
    assert p == range + ['/'] + step;
    SplitTwo(range, step, '/');
    assert p != "*" by { assert |p| >= 2; }
  }

  /** With a number before the `/` the step branch falls through, no range applies, and
      `parseInt` reads the number: `5/10` matches 5 and nothing else. */
  lemma NumberSlashIsExact(value: int, n: nat, tail: string)
    requires ',' !in tail && '-' !in tail
    ensures MatchField(value, NatStr(n) + "/" + tail) <==> value == n
  {
    var p := NatStr(n) + "/" + tail;
    NumberSlashBranch(value, n, tail, p);
    NumberSlashParse(n, tail, p);
  }

  lemma NumberSlashParse(n: nat, tail: string, p: string)
    requires p == NatStr(n) + "/" + tail
    ensures ParseInt(p) == Some(n)
  {
    var rest := "/" + tail;
    assert rest[0] == '/' && !IsDigit('/');
    assert p == NatStr(n) + rest;
    ParseNatStr(n, rest);
  }

  lemma NumberSlashBranch(value: int, n: nat, tail: string, p: string)
    requires ',' !in tail && '-' !in tail
    requires p == NatStr(n) + "/" + tail
    ensures MatchField(value, p) == (Some(value) == ParseInt(p))
  {
    var a := NatStr(n);
    NatStrHasNo(n, ','); NatStrHasNo(n, '-'); NatStrHasNo(n, '*'); NatStrHasNo(n, '/');
    assert p == a + ['/'] + tail;
    assert ',' !in p && '-' !in p;
    assert p != "*" by { assert p[0] == a[0]; }
    assert Split(p, '/')[0] == a by {
      IndexOfAfter(a, ['/'] + tail, '/');
      assert p == a + (['/'] + tail);
    }
    assert a != "*" by { assert a[0] != '*'; }
    assert !StepBranchReturns(p);
  }

  /** A stepped range with no end, `lo-/s`, has no upper bound: the end is NaN and
      `value > NaN` is false. */
  lemma OpenEndedStepRange(value: int, lo: nat, s: nat)
    ensures MatchField(value, NatStr(lo) + "-/" + NatStr(s)) <==> s != 0 && lo <= value && (value - lo) % s == 0
  {
    var p := NatStr(lo) + "-/" + NatStr(s);
    OpenEndedText(value, lo, s);
    StepSpanValues(value, p, Some(lo), None, Some(s));
    OpenStepArith(value, lo, s, MatchStep(value, p));
  }

  /** How `_matchField` reads the text `lo-/s`: the step branch, with range start `lo`,
      an empty range end and step `s`. */
  lemma OpenEndedText(value: int, lo: nat, s: nat)
    ensures var p := NatStr(lo) + "-/" + NatStr(s);
      && StepBranchReturns(p) && Split(p, '/')[0] != "*"
      && ParseInt(Split(p, '/')[1]) == Some(s)
      && ParseInt(Split(Split(p, '/')[0], '-')[0]) == Some(lo)
      && ParseInt(Split(Split(p, '/')[0], '-')[1]) == None
      && MatchField(value, p) == MatchStep(value, p)
  {
    var a, c := NatStr(lo), NatStr(s);
    NatStrHasNo(s, '/'); NatStrHasNo(s, ',');
    RangeStepText(value, lo, [], c, a + "-/" + c);
    ParseNat(lo); ParseNat(s);
    EmptyIsNaN();
  }

  /** `parseInt('')` is NaN. */
  lemma EmptyIsNaN()
    ensures ParseInt([]) == None
  {
  }

  lemma OpenStepArith(value: int, lo: nat, s: nat, m: bool)
    requires m == if Lt(Some(value), Some(lo)) || Gt(Some(value), None) then false
      else RemainderIsZero(Minus(Some(value), Some(lo)), Some(s))
    ensures m == (s != 0 && lo <= value && (value - lo) % s == 0)
  {
  }

  // ---------------------------------------------------------------------------
  // Fields made of zeros, one wildcard step and wildcards

  /** With every field defined and `*` from field `n` on, only the first `n` decide. */
  lemma EvalStars(values: seq<int>, fields: seq<Option<string>>, n: nat)
    requires |values| == |fields| && n <= |fields|
    requires forall i :: 0 <= i < |fields| ==> fields[i].Some?
    requires forall i :: n <= i < |fields| ==> fields[i] == Some("*")
    ensures EvalFields(values, fields).Ok?
    ensures EvalFields(values, fields).value <==> forall i :: 0 <= i < n ==> MatchField(values[i], fields[i].value)
  {
    forall i | n <= i < |fields| ensures MatchField(values[i], fields[i].value) {
      AnyMatches(values[i]);
    }
  }

  /** The pattern `0` matches exactly 0. */
  lemma ZeroMatches(value: int)
    ensures MatchField(value, "0") <==> value == 0
  {
    assert NatStr(0) == "0";
    ExactMatches(value, 0);
  }

  /** `0 * * * * *` (`0 * * * *`) matches at second 0. */
  lemma ZeroSecondFields(v: seq<int>, f: seq<Option<string>>)
    requires |v| == 6 && f == [Some("0"), Some("*"), Some("*"), Some("*"), Some("*"), Some("*")]
    ensures EvalFields(v, f) == Ok(v[0] == 0)
  {
    EvalStars(v, f, 1);
    ZeroMatches(v[0]);
  }

  /** `0 0 0 * * *` (`0 0 * * *`) matches when second, minute and hour are 0. */
  lemma ZeroClockFields(v: seq<int>, f: seq<Option<string>>)
    requires |v| == 6 && f == [Some("0"), Some("0"), Some("0"), Some("*"), Some("*"), Some("*")]
    ensures EvalFields(v, f) == Ok(v[0] == 0 && v[1] == 0 && v[2] == 0)
  {
    EvalStars(v, f, 3);
    ZeroMatches(v[0]);
    ZeroMatches(v[1]);
    ZeroMatches(v[2]);
    assert (forall i :: 0 <= i < 3 ==> MatchField(v[i], f[i].value))
       <==> MatchField(v[0], "0") && MatchField(v[1], "0") && MatchField(v[2], "0");
  }

  /** Zeros in the first `z` fields, the wildcard step by `n` next, and wildcards after it
      match when those first fields are 0 and field `z` is a multiple of `n` (never, for
      `n` 0). */
  lemma ZerosThenStepFields(v: seq<int>, f: seq<Option<string>>, z: nat, n: nat)
    requires |v| == 6 && |f| == 6 && z < 6
    requires forall i :: 0 <= i < z ==> f[i] == Some("0")
    requires f[z] == Some("*/" + NatStr(n))
    requires forall i :: z < i < 6 ==> f[i] == Some("*")
    ensures EvalFields(v, f) == Ok((forall i :: 0 <= i < z ==> v[i] == 0) && n != 0 && v[z] % n == 0)
  {
    EvalStars(v, f, z + 1);
    MatchPrefix(v, f, z);
    forall i | 0 <= i < z ensures MatchField(v[i], f[i].value) <==> v[i] == 0 {
      ZeroMatches(v[i]);
    }
    assert (forall i :: 0 <= i < z ==> MatchField(v[i], f[i].value))
       <==> (forall i :: 0 <= i < z ==> v[i] == 0);
    EveryMatches(v[z], n);
    assert MatchField(v[z], f[z].value) <==> n != 0 && v[z] % n == 0;
  }

  /** The first `z + 1` fields match exactly when the first `z` do and field `z` does. */
  lemma MatchPrefix(v: seq<int>, f: seq<Option<string>>, z: nat)
    requires |v| == |f| && z < |f| && forall i :: 0 <= i < |f| ==> f[i].Some?
    ensures (forall i :: 0 <= i < z + 1 ==> MatchField(v[i], f[i].value))
       <==> (forall i :: 0 <= i < z ==> MatchField(v[i], f[i].value)) && MatchField(v[z], f[z].value)
  {
  }

  /** The same rule shape evaluated at an instant: zeros in the first `z` calendar fields,
      then a multiple of `n` in field `z`. */
  lemma ZerosThenStepAt(f: seq<Option<string>>, z: nat, n: nat, k: int)
    requires |f| == 6 && z < 6
    requires forall i :: 0 <= i < z ==> f[i] == Some("0")
    requires f[z] == Some("*/" + NatStr(n))
    requires forall i :: z < i < 6 ==> f[i] == Some("*")
    ensures var v := FieldValues(k);
      EvalAt(f, k) == Ok((forall i :: 0 <= i < z ==> v[i] == 0) && n != 0 && v[z] % n == 0)
  {
    ZerosThenStepFields(FieldValues(k), f, z, n);
  }

  // ---------------------------------------------------------------------------
  // From a rule to its six fields

  lemma JoinSpaceEnds(tokens: seq<string>)
    requires |tokens| >= 1 && forall t :: t in tokens ==> t != [] && NoSpace(t)
    ensures var s := JoinSpace(tokens); s != [] && !IsSpace(s[0]) && !IsSpace(s[|s| - 1])
    decreases |tokens|
  {
    assert tokens[0] in tokens;
    var t0 := tokens[0];
    assert !IsSpace(t0[0]) && !IsSpace(t0[|t0| - 1]);
    if |tokens| > 1 {
      forall t | t in tokens[1..] ensures t != [] && NoSpace(t) { assert t in tokens; }
      JoinSpaceEnds(tokens[1..]);
    }
  }

  /** A rule of single-spaced tokens trims to itself and splits into those tokens. */
  lemma RuleParts(tokens: seq<string>)
    requires |tokens| >= 1 && forall t :: t in tokens ==> t != [] && NoSpace(t)
    ensures SplitWs(Trim(JoinSpace(tokens))) == tokens
  {
    var s := JoinSpace(tokens);
    JoinSpaceEnds(tokens);
    assert TrimStart(s) == s;
    assert TrimEnd(s) == s;
    SplitWsJoinSpace(tokens);
  }

  /** A rule written with any runs of white space between its tokens and any white space
      around them (double spaces, tabs, line breaks) splits into those tokens. */
  lemma SpacedRuleParts(lead: string, tokens: seq<string>, seps: seq<string>, trail: string)
    requires |tokens| >= 1 && |seps| == |tokens| - 1
    requires forall t :: t in tokens ==> t != [] && NoSpace(t)
    requires forall w :: w in seps ==> w != [] && AllSpace(w)
    requires AllSpace(lead) && AllSpace(trail)
    ensures SplitWs(Trim(lead + JoinRuns(tokens, seps) + trail)) == tokens
  {
    var m := JoinRuns(tokens, seps);
    var l := tokens[|tokens| - 1];
    assert tokens[0] in tokens && l in tokens;
    JoinRunsStart(tokens, seps);
    JoinRunsEnd(tokens, seps);
    assert !IsSpace(l[|l| - 1]);
    TrimRuns(lead, m, trail);
    SplitWsJoinRuns(tokens, seps);
  }

  /** The fields of such a rule are those of its tokens, whatever the white space. */
  lemma SpacedRuleFields(lead: string, tokens: seq<string>, seps: seq<string>, trail: string)
    requires |tokens| >= 1 && |seps| == |tokens| - 1
    requires forall t :: t in tokens ==> t != [] && NoSpace(t)
    requires forall w :: w in seps ==> w != [] && AllSpace(w)
    requires AllSpace(lead) && AllSpace(trail)
    ensures Fields(lead + JoinRuns(tokens, seps) + trail) == FieldsOf(tokens)
  {
    SpacedRuleParts(lead, tokens, seps, trail);
  }

  /** A six-part rule is read field by field in order (parts after the sixth are ignored). */
  lemma SixFieldRule(tokens: seq<string>)
    requires |tokens| >= 6 && forall t :: t in tokens ==> t != [] && NoSpace(t)
    ensures Fields(JoinSpace(tokens))
         == [Some(tokens[0]), Some(tokens[1]), Some(tokens[2]), Some(tokens[3]), Some(tokens[4]), Some(tokens[5])]
  {
    RuleParts(tokens);
  }

  /** A five-part rule gets second `0`, and its parts become minute, hour, day of month,
      month and day of week. */
  lemma FiveFieldRule(tokens: seq<string>)
    requires |tokens| == 5 && forall t :: t in tokens ==> t != [] && NoSpace(t)
    ensures Fields(JoinSpace(tokens))
         == [Some("0"), Some(tokens[0]), Some(tokens[1]), Some(tokens[2]), Some(tokens[3]), Some(tokens[4])]
  {
    RuleParts(tokens);
  }

  /** The fields of a rule written as six single-space-separated tokens. */
  lemma SixTokenRule(rule: string, a: string, b: string, c: string, d: string, e: string, g: string)
    requires a != [] && b != [] && c != [] && d != [] && e != [] && g != []
    requires NoSpace(a) && NoSpace(b) && NoSpace(c) && NoSpace(d) && NoSpace(e) && NoSpace(g)
    requires rule == a + " " + b + " " + c + " " + d + " " + e + " " + g
    ensures Fields(rule) == [Some(a), Some(b), Some(c), Some(d), Some(e), Some(g)]
  {
    var t := [a, b, c, d, e, g];
    SixJoin(a, b, c, d, e, g);
    forall x | x in t ensures x != [] && NoSpace(x) { }
    SixFieldRule(t);
  }

  /** Six tokens joined by single spaces. */
  lemma SixJoin(a: string, b: string, c: string, d: string, e: string, g: string)
    ensures JoinSpace([a, b, c, d, e, g]) == a + " " + b + " " + c + " " + d + " " + e + " " + g
  {
    JoinSpaceSnoc([a], b);
    assert [a] + [b] == [a, b];
    JoinSpaceSnoc([a, b], c);
    assert [a, b] + [c] == [a, b, c];
    JoinSpaceSnoc([a, b, c], d);
    assert [a, b, c] + [d] == [a, b, c, d];
    JoinSpaceSnoc([a, b, c, d], e);
    assert [a, b, c, d] + [e] == [a, b, c, d, e];
    JoinSpaceSnoc([a, b, c, d, e], g);
    assert [a, b, c, d, e] + [g] == [a, b, c, d, e, g];
  }

  /** Joining one more token at the end adds a space and the token. */
  lemma {:induction false} JoinSpaceSnoc(init: seq<string>, x: string)
    requires |init| >= 1
    ensures JoinSpace(init + [x]) == JoinSpace(init) + " " + x
    decreases |init|
  {
    assert (init + [x])[1..] == init[1..] + [x];
    if |init| > 1 {
      JoinSpaceSnoc(init[1..], x);
      var h, j := init[0], JoinSpace(init[1..]);
      assert h + " " + (j + " " + x) == (h + " " + j) + " " + x;
    } else {
      assert init[1..] + [x] == [x];
    }
  }

  /** The fields of a rule written as five single-space-separated tokens. */
  lemma FiveTokenRule(rule: string, a: string, b: string, c: string, d: string, e: string)
    requires a != [] && b != [] && c != [] && d != [] && e != []
    requires NoSpace(a) && NoSpace(b) && NoSpace(c) && NoSpace(d) && NoSpace(e)
    requires rule == a + " " + b + " " + c + " " + d + " " + e
    ensures Fields(rule) == [Some("0"), Some(a), Some(b), Some(c), Some(d), Some(e)]
  {
    var t := [a, b, c, d, e];
    JoinSpaceSnoc([a], b);
    assert [a] + [b] == [a, b];
    JoinSpaceSnoc([a, b], c);
    assert [a, b] + [c] == [a, b, c];
    JoinSpaceSnoc([a, b, c], d);
    assert [a, b, c] + [d] == [a, b, c, d];
    JoinSpaceSnoc([a, b, c, d], e);
    assert [a, b, c, d] + [e] == t;
    forall x | x in t ensures x != [] && NoSpace(x) { }
    FiveFieldRule(t);
  }

  /** Every field is defined exactly when the rule has at least five parts; otherwise the
      first missing part is `undefined`. */
  lemma FieldsDefined(parts: seq<string>)
    ensures (forall i :: 0 <= i < 6 ==> FieldsOf(parts)[i].Some?) <==> |parts| >= 5
    ensures |parts| < 5 ==> FieldsOf(parts)[|parts|].None?
  {
    if |parts| < 5 {
      assert FieldsOf(parts)[|parts|] == Part(parts, |parts|);
    }
  }
}
