/** The JavaScript string built-ins the scheduler leans on: ECMAScript white space,
    `trim`, `split` on one character, `split(/\s+/)`, `parseInt(s, 10)`, and the
    decimal text of a natural number (what a template literal `${n}` produces). */
module JsText {
  import opened Wrappers

  /** ECMAScript WhiteSpace or LineTerminator: what `trim` removes and what `\s` matches. */
  predicate IsSpace(c: char) {
    c == '\t' || c == '\n' || c == '\U{000B}' || c == '\U{000C}' || c == '\r' || c == ' '
    || c == '\U{00A0}' || c == '\U{1680}' || ('\U{2000}' <= c <= '\U{200A}')
    || c == '\U{2028}' || c == '\U{2029}' || c == '\U{202F}' || c == '\U{205F}'
    || c == '\U{3000}' || c == '\U{FEFF}'
  }

  predicate NoSpace(s: string) {
    forall i :: 0 <= i < |s| ==> !IsSpace(s[i])
  }

  /** `s.trimStart()` */
  function TrimStart(s: string): (r: string)
    ensures |r| <= |s| && r == s[|s| - |r|..]
    ensures r == [] || !IsSpace(r[0])
    ensures forall i :: 0 <= i < |s| - |r| ==> IsSpace(s[i])
    decreases |s|
  {
    if s != [] && IsSpace(s[0]) then TrimStart(s[1..]) else s
  }

  /** `s.trimEnd()` */
  function TrimEnd(s: string): (r: string)
    ensures |r| <= |s| && r == s[..|r|]
    ensures r == [] || !IsSpace(r[|r| - 1])
    ensures forall i :: |r| <= i < |s| ==> IsSpace(s[i])
    decreases |s|
  {
    if s != [] && IsSpace(s[|s| - 1]) then TrimEnd(s[..|s| - 1]) else s
  }

  /** `s.trim()`: what is left of `s` once the leading and then the trailing white space
      are dropped; everything between is kept as it is. */
  function Trim(s: string): (r: string)
    ensures |r| <= |s|
    ensures r == [] || (!IsSpace(r[0]) && !IsSpace(r[|r| - 1]))
    ensures |r| <= |TrimStart(s)| && r == TrimStart(s)[..|r|]
    ensures forall i :: |r| <= i < |TrimStart(s)| ==> IsSpace(TrimStart(s)[i])
  {
    TrimEnd(TrimStart(s))
  }

  /** A prefix of `t` that ends on something other than white space and leaves only
      white space after it is the same prefix as any other such one. */
  lemma SpaceCut(t: string, r: string, k: nat)
    requires |r| <= |t| && r == t[..|r|] && (r == [] || !IsSpace(r[|r| - 1]))
    requires forall i :: |r| <= i < |t| ==> IsSpace(t[i])
    requires 1 <= k <= |t| && !IsSpace(t[k - 1])
    requires forall i :: k <= i < |t| ==> IsSpace(t[i])
    ensures r == t[..k]
  {
  }

  /** `trim` keeps a text that starts and ends with something other than white space,
      whatever white space surrounds it. */
  lemma TrimRuns(w1: string, m: string, w2: string)
    requires forall i :: 0 <= i < |w1| ==> IsSpace(w1[i])
    requires forall i :: 0 <= i < |w2| ==> IsSpace(w2[i])
    requires m != [] && !IsSpace(m[0]) && !IsSpace(m[|m| - 1])
    ensures Trim(w1 + m + w2) == m
  {
    var s := w1 + m + w2;
    var t := m + w2;
    assert s == w1 + t;
    TrimStartRun(w1, t);
    forall i | |m| <= i < |t| ensures IsSpace(t[i]) {
      assert t[i] == w2[i - |m|];
    }
    assert t[|m| - 1] == m[|m| - 1];
    SpaceCut(t, Trim(s), |m|);
    assert t[..|m|] == m;
  }

  /** Index of the first occurrence of `c` in `s`. */
  function IndexOf(s: string, c: char): (i: nat)
    requires c in s
    ensures i < |s| && s[i] == c && c !in s[..i]
  {
    if s[0] == c then 0 else 1 + IndexOf(s[1..], c)
  }

  /** `s.split(c)` for a one-character separator `c`. */
  function Split(s: string, c: char): (parts: seq<string>)
    ensures |parts| >= 1
    ensures forall p :: p in parts ==> c !in p && |p| <= |s|
    ensures c in s ==> |parts| >= 2 && forall p :: p in parts ==> |p| < |s|
    decreases |s|
  {
    if c !in s then [s]
    else
      var i := IndexOf(s, c);
      [s[..i]] + Split(s[i + 1..], c)
  }

  /** The inverse of `Split`: `parts.join(c)`. */
  function Join(parts: seq<string>, c: char): string
    requires |parts| >= 1
    decreases |parts|
  {
    if |parts| == 1 then parts[0] else parts[0] + [c] + Join(parts[1..], c)
  }

  /** Joining the pieces of a split gives back the string. */
  lemma {:induction false} JoinSplit(s: string, c: char)
    ensures Join(Split(s, c), c) == s
    decreases |s|
  {
    if c in s {
      var i := IndexOf(s, c);
      JoinSplit(s[i + 1..], c);
      assert s == s[..i] + [c] + s[i + 1..];
    }
  }

  /** The first `c` in `a + b` is at `|a|` when `a` has none and `b` starts with one. */
  lemma {:induction false} IndexOfAfter(a: string, b: string, c: char)
    requires c !in a && b != [] && b[0] == c
    ensures c in a + b && IndexOf(a + b, c) == |a|
    decreases |a|
  {
    assert (a + b)[|a|] == c;
    if a != [] {
      assert (a + b)[1..] == a[1..] + b;
      IndexOfAfter(a[1..], b, c);
    }
  }

  /** Splitting `a`, a separator and `rest` gives `a`, then the pieces of `rest`. */
  lemma SplitFirst(a: string, rest: string, c: char)
    requires c !in a
    ensures Split(a + [c] + rest, c) == [a] + Split(rest, c)
  {
    var s := a + [c] + rest;
    assert s == a + ([c] + rest);
    IndexOfAfter(a, [c] + rest, c);
    var i := IndexOf(s, c);
    assert s[..i] == a;
    assert s[i + 1..] == rest;
  }

  /** Splitting a join of separator-free pieces gives back the pieces. */
  lemma {:induction false} SplitJoin(parts: seq<string>, c: char)
    requires |parts| >= 1
    requires forall p :: p in parts ==> c !in p
    ensures Split(Join(parts, c), c) == parts
    decreases |parts|
  {
    if |parts| > 1 {
      assert parts[0] in parts;
      SplitFirst(parts[0], Join(parts[1..], c), c);
      forall p | p in parts[1..] ensures c !in p { assert p in parts; }
      SplitJoin(parts[1..], c);
      assert parts == [parts[0]] + parts[1..];
    } else {
      assert parts[0] in parts;
    }
  }

  /** Index of the first white-space character of `s`. */
  function FirstSpace(s: string): (i: nat)
    requires !NoSpace(s)
    ensures i < |s| && IsSpace(s[i]) && NoSpace(s[..i])
  {
    if IsSpace(s[0]) then 0 else 1 + FirstSpace(s[1..])
  }

  /** `s.split(/\s+/)`: split at every maximal run of white space. */
  function SplitWs(s: string): (parts: seq<string>)
    ensures |parts| >= 1
    ensures forall p :: p in parts ==> NoSpace(p)
    ensures |parts| == 1 <==> NoSpace(s)
    ensures |parts| == 1 ==> parts == [s]
    decreases |s|
  {
    if NoSpace(s) then [s]
    else
      var i := FirstSpace(s);
      [s[..i]] + SplitWs(TrimStart(s[i..]))
  }

  /** `parts.join(" ")` */
  function JoinSpace(parts: seq<string>): string
    requires |parts| >= 1
    decreases |parts|
  {
    if |parts| == 1 then parts[0] else parts[0] + " " + JoinSpace(parts[1..])
  }

  /** The first white space in `a + b` is at `|a|` when `a` has none and `b` starts with some. */
  lemma {:induction false} FirstSpaceAfter(a: string, b: string)
    requires NoSpace(a) && b != [] && IsSpace(b[0])
    ensures !NoSpace(a + b) && FirstSpace(a + b) == |a|
    decreases |a|
  {
    assert IsSpace((a + b)[|a|]);
    if a != [] {
      assert (a + b)[1..] == a[1..] + b;
      FirstSpaceAfter(a[1..], b);
    }
  }

  /** Splitting `a`, one space and `rest` at white space gives `a`, then the pieces of
      `rest`. */
  lemma SplitWsFirst(a: string, rest: string)
    requires NoSpace(a) && rest != [] && !IsSpace(rest[0])
    ensures SplitWs(a + " " + rest) == [a] + SplitWs(rest)
  {
    var tail := [' '] + rest;
    var s := a + tail;
    assert s == a + " " + rest;
    FirstSpaceAfter(a, tail);
    var i := FirstSpace(s);
    assert s[..i] == a && s[i..] == tail;
    assert TrimStart(tail) == rest by {
      assert tail[1..] == rest;
    }
  }

  /** A run of white space in front of `rest` is exactly what `trimStart` removes. */
  lemma {:induction false} TrimStartRun(w: string, rest: string)
    requires forall i :: 0 <= i < |w| ==> IsSpace(w[i])
    requires rest == [] || !IsSpace(rest[0])
    ensures TrimStart(w + rest) == rest
    decreases |w|
  {
    if w != [] {
      assert (w + rest)[1..] == w[1..] + rest;
      TrimStartRun(w[1..], rest);
    } else {
      assert w + rest == rest;
    }
  }

  /** Splitting `a`, any non-empty run of white space and `rest` at white space gives
      `a`, then the pieces of `rest`: a run of several spaces, tabs or line breaks
      separates two parts exactly as one space does. */
  lemma SplitWsRun(a: string, w: string, rest: string)
    requires NoSpace(a)
    requires w != [] && forall i :: 0 <= i < |w| ==> IsSpace(w[i])
    requires rest == [] || !IsSpace(rest[0])
    ensures SplitWs(a + w + rest) == [a] + SplitWs(rest)
  {
    var tail := w + rest;
    var s := a + tail;
    assert s == a + w + rest;
    FirstSpaceAfter(a, tail);
    var i := FirstSpace(s);
    assert s[..i] == a && s[i..] == tail;
    TrimStartRun(w, rest);
  }

  /** Tokens written with single spaces between them split back into the same tokens. */
  lemma {:induction false} SplitWsJoinSpace(parts: seq<string>)
    requires |parts| >= 1
    requires forall p :: p in parts ==> p != [] && NoSpace(p)
    ensures SplitWs(JoinSpace(parts)) == parts
    decreases |parts|
  {
    assert parts[0] in parts;
    if |parts| > 1 {
      assert parts[1] in parts;
      JoinSpaceStart(parts[1..]);
      SplitWsFirst(parts[0], JoinSpace(parts[1..]));
      forall p | p in parts[1..] ensures p != [] && NoSpace(p) { assert p in parts; }
      SplitWsJoinSpace(parts[1..]);
      assert parts == [parts[0]] + parts[1..];
    }
  }

  /** Text made only of white space (possibly none). */
  predicate AllSpace(w: string) {
    forall i :: 0 <= i < |w| ==> IsSpace(w[i])
  }

  /** `parts` with the run `seps[i]` between part `i` and part `i + 1`. */
  function JoinRuns(parts: seq<string>, seps: seq<string>): string
    requires |parts| >= 1 && |seps| == |parts| - 1
    decreases |parts|
  {
    if |parts| == 1 then parts[0] else parts[0] + seps[0] + JoinRuns(parts[1..], seps[1..])
  }

  /** Tokens separated by any non-empty runs of white space split back into the same
      tokens: every text without white space at either end is such a join. */
  lemma {:induction false} SplitWsJoinRuns(parts: seq<string>, seps: seq<string>)
    requires |parts| >= 1 && |seps| == |parts| - 1
    requires forall p :: p in parts ==> p != [] && NoSpace(p)
    requires forall w :: w in seps ==> w != [] && AllSpace(w)
    ensures SplitWs(JoinRuns(parts, seps)) == parts
    decreases |parts|
  {
    assert parts[0] in parts;
    if |parts| > 1 {
      assert parts[1] in parts && seps[0] in seps;
      forall p | p in parts[1..] ensures p != [] && NoSpace(p) { assert p in parts; }
      forall w | w in seps[1..] ensures w != [] && AllSpace(w) { assert w in seps; }
      JoinRunsStart(parts[1..], seps[1..]);
      SplitWsRun(parts[0], seps[0], JoinRuns(parts[1..], seps[1..]));
      SplitWsJoinRuns(parts[1..], seps[1..]);
      assert parts == [parts[0]] + parts[1..];
    }
  }

  /** A join of runs starts with the first token's first character. */
  lemma JoinRunsStart(parts: seq<string>, seps: seq<string>)
    requires |parts| >= 1 && |seps| == |parts| - 1 && parts[0] != []
    ensures JoinRuns(parts, seps) != [] && JoinRuns(parts, seps)[0] == parts[0][0]
  {
    if |parts| > 1 {
      assert JoinRuns(parts, seps) == parts[0] + (seps[0] + JoinRuns(parts[1..], seps[1..]));
    }
  }

  /** A join of runs ends with the last token's last character. */
  lemma {:induction false} JoinRunsEnd(parts: seq<string>, seps: seq<string>)
    requires |parts| >= 1 && |seps| == |parts| - 1 && parts[|parts| - 1] != []
    ensures var s := JoinRuns(parts, seps); var l := parts[|parts| - 1];
      s != [] && s[|s| - 1] == l[|l| - 1]
    decreases |parts|
  {
    if |parts| > 1 {
      assert parts[1..][|parts| - 2] == parts[|parts| - 1];
      JoinRunsEnd(parts[1..], seps[1..]);
    }
  }

  /** A single-space join of non-blank tokens starts with the first token's first character. */
  lemma JoinSpaceStart(parts: seq<string>)
    requires |parts| >= 1 && parts[0] != []
    ensures JoinSpace(parts) != [] && JoinSpace(parts)[0] == parts[0][0]
  {
  }

  predicate IsDigit(c: char) {
    '0' <= c <= '9'
  }

  predicate AllDigits(s: string) {
    forall i :: 0 <= i < |s| ==> IsDigit(s[i])
  }

  /** Length of the longest all-digit prefix of `s`. */
  function DigitRun(s: string): (n: nat)
    ensures n <= |s| && AllDigits(s[..n])
    ensures n < |s| ==> !IsDigit(s[n])
  {
    if s != [] && IsDigit(s[0]) then
      var n := 1 + DigitRun(s[1..]);
      assert s[..n] == [s[0]] + s[1..][..n - 1];
      n
    else 0
  }

  /** The number a string of decimal digits denotes. */
  function DigitsValue(ds: string): nat
    requires AllDigits(ds)
    decreases |ds|
  {
    if ds == [] then 0
    else
      assert IsDigit(ds[|ds| - 1]);
      DigitsValue(ds[..|ds| - 1]) * 10 + (ds[|ds| - 1] as int - '0' as int)
  }

  /** `parseInt(s, 10)`: skip leading white space, take an optional sign, then read the
      longest run of decimal digits; with no digit the result is NaN (`None`). */
  function ParseInt(s: string): Option<int> {
    var t := TrimStart(s);
    var negative := t != [] && t[0] == '-';
    var u := if t != [] && (t[0] == '-' || t[0] == '+') then t[1..] else t;
    var n := DigitRun(u);
    if n == 0 then None
    else if negative then Some(-(DigitsValue(u[..n]) as int))
    else Some(DigitsValue(u[..n]))
  }

  /** The decimal digit character for `d`. */
  function Digit(d: nat): (c: char)
    requires d < 10
    ensures IsDigit(c) && c as int - '0' as int == d
  {
    ('0' as int + d) as char
  }

  /** The decimal text of `n`, as JavaScript writes a non-negative integer. */
  function NatStr(n: nat): (s: string)
    ensures s != [] && AllDigits(s)
    decreases n
  {
    if n < 10 then [Digit(n)] else NatStr(n / 10) + [Digit(n % 10)]
  }

  lemma {:induction false} DigitsValueNatStr(n: nat)
    ensures DigitsValue(NatStr(n)) == n
    decreases n
  {
    if n >= 10 {
      var s := NatStr(n);
      assert s[..|s| - 1] == NatStr(n / 10);
      DigitsValueNatStr(n / 10);
    }
  }

  /** The digit run of `a + b` is `a` when `a` is all digits and `b` does not start with one. */
  lemma {:induction false} DigitRunOf(a: string, b: string)
    requires AllDigits(a) && (b == [] || !IsDigit(b[0]))
    ensures DigitRun(a + b) == |a|
    decreases |a|
  {
    if a != [] {
      assert (a + b)[0] == a[0];
      assert (a + b)[1..] == a[1..] + b;
      DigitRunOf(a[1..], b);
    }
  }

  /** `parseInt` reads back the number from its decimal text, whatever non-digit text follows. */
  lemma ParseNatStr(n: nat, rest: string)
    requires rest == [] || !IsDigit(rest[0])
    ensures ParseInt(NatStr(n) + rest) == Some(n)
  {
    var s := NatStr(n) + rest;
    assert s[0] == NatStr(n)[0];
    assert TrimStart(s) == s;
    DigitRunOf(NatStr(n), rest);
    assert s[..|NatStr(n)|] == NatStr(n);
    DigitsValueNatStr(n);
  }

  /** Decimal text never contains white space. */
  lemma NatStrNoSpace(n: nat)
    ensures NoSpace(NatStr(n))
  {
  }
}
