/** The simplified `transition` shorthand parser (lib/Css.js, lines 366-404): time strings,
    time values in milliseconds, one transition, and the comma-separated list. */
module CssTransition {
  import opened Base
  import opened Numbers

  function EndsWith(s: string, suffix: string): bool
  {
    |suffix| <= |s| && s[|s| - |suffix|..] == suffix
  }

  // ---------------------------------------------------------------- time strings

  /** `/^-?(0?\.)?\d+m?s$/.test(v)`, read deterministically: an optional `-`, then an
      optional `0.` or `.`, then one or more digits, then exactly `s` or `ms`. */
  predicate IsTimeString(v: string)
  {
    var a := if |v| > 0 && v[0] == '-' then v[1..] else v;
    var b := if |a| >= 2 && a[..2] == "0." then a[2..] else if |a| >= 1 && a[0] == '.' then a[1..] else a;
    var n := DigitRun(b);
    n >= 1 && (b[n..] == "s" || b[n..] == "ms")
  }

  /** The pattern's language, one piece per part of the regular expression. */
  predicate TimeShape(sign: string, group: string, digits: string, unit: string)
  {
    (sign == "" || sign == "-") && (group == "" || group == "." || group == "0.")
    && |digits| >= 1 && AllDigits(digits) && (unit == "s" || unit == "ms")
  }

  /** Every string of the pattern's language is accepted. */
  lemma TimeStringComplete(sign: string, group: string, digits: string, unit: string)
    requires TimeShape(sign, group, digits, unit)
    ensures IsTimeString(sign + (group + (digits + unit)))
  {
    var b := digits + unit;
    var a := group + b;
    var v := sign + a;
    assert DigitRun(b) == |digits| && b[|digits|..] == unit by {
      DigitRunOfDigitsThen(digits, unit);
    }
    assert (if |a| >= 2 && a[..2] == "0." then a[2..] else if |a| >= 1 && a[0] == '.' then a[1..] else a) == b by {
      assert IsDigit(b[0]) && (|b| >= 2 ==> b[1] != '.') by {
        assert b[0] == digits[0];
        if |b| >= 2 {
          if |digits| >= 2 { assert b[1] == digits[1]; } else { assert b[1] == unit[0]; }
        }
      }
      GroupStrip(group, b);
    }
    assert (if |v| > 0 && v[0] == '-' then v[1..] else v) == a by {
      assert a[0] != '-' by {
        if group != "" { assert a[0] == group[0]; } else { assert a[0] == digits[0]; }
      }
      SignStrip(sign, a);
    }
    TimeStringOfParts(v, a, b, |digits|);
  }

  /** The three steps of `IsTimeString`, given their outcomes. */
  lemma TimeStringOfParts(v: string, a: string, b: string, n: nat)
    requires (if |v| > 0 && v[0] == '-' then v[1..] else v) == a
    requires (if |a| >= 2 && a[..2] == "0." then a[2..] else if |a| >= 1 && a[0] == '.' then a[1..] else a) == b
    requires DigitRun(b) == n && n >= 1 && n <= |b| && (b[n..] == "s" || b[n..] == "ms")
    ensures IsTimeString(v)
  {
  }

  /** The optional sign is taken off again. */
  lemma SignStrip(sign: string, a: string)
    requires (sign == "" || sign == "-") && |a| > 0 && a[0] != '-'
    ensures var v := sign + a; (if |v| > 0 && v[0] == '-' then v[1..] else v) == a
  {
    if sign == "-" {
      assert (sign + a)[1..] == a;
    } else {
      assert sign + a == a;
    }
  }

  /** The optional `0.` or `.` is taken off again, in front of a digit that is not
      followed by a point. */
  lemma GroupStrip(group: string, b: string)
    requires group == "" || group == "." || group == "0."
    requires |b| > 0 && IsDigit(b[0]) && (|b| >= 2 ==> b[1] != '.')
    ensures var a := group + b;
      (if |a| >= 2 && a[..2] == "0." then a[2..] else if |a| >= 1 && a[0] == '.' then a[1..] else a) == b
  {
    var a := group + b;
    if group == "0." {
      assert a[..2] == "0." && a[2..] == b;
    } else if group == "." {
      assert a[..2] != "0." by { assert a[0] == '.'; }
      assert a[1..] == b;
    } else {
      assert a == b;
      if |a| >= 2 {
        assert a[..2] != "0." by { assert a[..2][1] == a[1]; }
      }
    }
  }

  /** Every accepted string is in the pattern's language: these are its pieces. */
  lemma TimeStringSound(v: string)
    requires IsTimeString(v)
    ensures exists i, j, k :: 0 <= i <= j < k <= |v| && TimeShape(v[..i], v[i..j], v[j..k], v[k..])
  {
    var a := if |v| > 0 && v[0] == '-' then v[1..] else v;
    var b := if |a| >= 2 && a[..2] == "0." then a[2..] else if |a| >= 1 && a[0] == '.' then a[1..] else a;
    var n := DigitRun(b);
    var sign := if |v| > 0 && v[0] == '-' then "-" else "";
    var group := if |a| >= 2 && a[..2] == "0." then "0." else if |a| >= 1 && a[0] == '.' then "." else "";
    SignSplit(v, sign, a);
    GroupSplit(a, group, b);
    DigitsSplit(b, n);
    ShapeWitness(v, sign, group, b[..n], b[n..]);
  }

  lemma SignSplit(v: string, sign: string, a: string)
    requires sign == (if |v| > 0 && v[0] == '-' then "-" else "")
    requires a == (if |v| > 0 && v[0] == '-' then v[1..] else v)
    ensures v == sign + a
  {
    if sign == "-" {
      assert v == [v[0]] + v[1..];
    }
  }

  lemma GroupSplit(a: string, group: string, b: string)
    requires group == (if |a| >= 2 && a[..2] == "0." then "0." else if |a| >= 1 && a[0] == '.' then "." else "")
    requires b == (if |a| >= 2 && a[..2] == "0." then a[2..] else if |a| >= 1 && a[0] == '.' then a[1..] else a)
    ensures a == group + b
  {
    if group == "0." {
      assert a == a[..2] + a[2..];
    } else if group == "." {
      assert a == [a[0]] + a[1..];
    }
  }

  lemma DigitsSplit(b: string, n: nat)
    requires n <= |b| && forall k :: 0 <= k < n ==> IsDigit(b[k])
    ensures b == b[..n] + b[n..] && AllDigits(b[..n])
  {
    assert forall k :: 0 <= k < n ==> b[..n][k] == b[k];
  }

  /** The pieces of a string of the pattern's language give the cut points. */
  lemma ShapeWitness(v: string, sign: string, group: string, digits: string, unit: string)
    requires v == sign + (group + (digits + unit)) && TimeShape(sign, group, digits, unit)
    ensures exists i, j, k :: 0 <= i <= j < k <= |v| && TimeShape(v[..i], v[i..j], v[j..k], v[k..])
  {
    ConcatPieces(sign, group, digits, unit);
    var i, j := |sign|, |sign| + |group|;
    assert TimeShape(v[..i], v[i..j], v[j..j + |digits|], v[j + |digits|..]);
  }

  /** Where the four pieces of a concatenation lie. */
  lemma ConcatPieces(p0: string, p1: string, p2: string, p3: string)
    ensures var v, i, j, k := p0 + (p1 + (p2 + p3)), |p0|, |p0| + |p1|, |p0| + |p1| + |p2|;
      v[..i] == p0 && v[i..j] == p1 && v[j..k] == p2 && v[k..] == p3
  {
  }

  /** The documented limitation: a fraction needs a leading `0.` or `.`, so `1.5s` is rejected. */
  lemma TimeStringRejects()
    ensures !IsTimeString("1.5s") && !IsTimeString("5") && !IsTimeString("s") && !IsTimeString("")
  {
    assert "1.5s"[..2] != "0." by { assert "1.5s"[..2][0] == '1'; }
    assert DigitRun("1.5s") == 1 by { assert DigitRun("1.5s"[1..]) == 0; }
    assert "1.5s"[1..] != "s" && "1.5s"[1..] != "ms";
    assert DigitRun("5") == 1;
  }

  /** Fractions written `0.5s` or `.5s`, negative times and milliseconds are accepted. */
  lemma TimeStringAccepts()
    ensures IsTimeString("0.5s") && IsTimeString(".5s") && IsTimeString("-2ms") && IsTimeString("100ms")
  {
    AcceptsZeroPoint();
    AcceptsPoint();
    AcceptsNegativeMs();
    AcceptsMs();
  }

  lemma AcceptsZeroPoint()
    ensures IsTimeString("0.5s")
  {
    TimeStringComplete("", "0.", "5", "s");
    assert "" + ("0." + ("5" + "s")) == "0.5s";
  }

  lemma AcceptsPoint()
    ensures IsTimeString(".5s")
  {
    TimeStringComplete("", ".", "5", "s");
    assert "" + ("." + ("5" + "s")) == ".5s";
  }

  lemma AcceptsNegativeMs()
    ensures IsTimeString("-2ms")
  {
    TimeStringComplete("-", "", "2", "ms");
    assert "-" + ("" + ("2" + "ms")) == "-2ms";
  }

  lemma AcceptsMs()
    ensures IsTimeString("100ms")
  {
    TimeStringComplete("", "", "100", "ms");
    assert "" + ("" + ("100" + "ms")) == "100ms";
  }

  // ---------------------------------------------------------------- milliseconds

  /** The result of `timeToMs`: `undefined`, `NaN`, or a number of milliseconds. */
  datatype Millis = Undefined | NotANumber | Ms(ms: real)

  /** `timeToMs(value)`: `undefined` for a missing or empty value; otherwise
      `parseFloat(value)`, times 1 with an `ms` suffix and times 1000 without. */
  function TimeToMs(value: Option<string>): (r: Millis)
    ensures r.Undefined? <==> value.None? || value.value == ""
    ensures r.NotANumber? <==> value.Some? && value.value != "" && ParseFloat(value.value).None?
    ensures r.Ms? ==> r.ms == ParseFloat(value.value).value * (if EndsWith(value.value, "ms") then 1.0 else 1000.0)
  {
    match value
    case None => Undefined
    case Some(v) =>
      if v == "" then Undefined
      else match ParseFloat(v)
        case None => NotANumber
        case Some(x) => Ms(x * (if EndsWith(v, "ms") then 1.0 else 1000.0))
  }

  /** A time string always has a value: it starts with a number after its optional sign. */
  lemma TimeStringHasValue(v: string)
    requires IsTimeString(v)
    ensures TimeToMs(Some(v)).Ms?
  {
    assert |v| > 0;
    var i := if v[0] == '-' then 1 else 0;
    assert !IsJsSpace(v[0]);
    assert LeadingSpace(v) == 0;
    assert v[0..] == v;
    var body := v[i..];
    assert body == (if |v| > 0 && (v[0] == '-' || v[0] == '+') then v[1..] else v);
    if |body| >= 2 && body[..2] == "0." {
      assert IsDigit(body[0]);
    } else if |body| >= 1 && body[0] == '.' {
      assert body[1..][0] == body[1];
      assert IsDigit(body[1]);
    } else {
      assert IsDigit(body[0]);
    }
  }

  /** `String(n) + 'ms'` reads as `n` milliseconds. */
  lemma TimeToMsOfNatMs(n: nat)
    ensures TimeToMs(Some(NatToString(n) + "ms")) == Ms(n as real)
  {
    ParseFloatOfNat(n, "ms");
    var a := NatToString(n) + "ms";
    assert a[|a| - 2..] == "ms";
  }

  /** `String(n) + 's'` reads as `1000 * n` milliseconds. */
  lemma TimeToMsOfNatSeconds(n: nat)
    ensures TimeToMs(Some(NatToString(n) + "s")) == Ms(n as real * 1000.0)
  {
    var digits := NatToString(n);
    var b := digits + "s";
    ParseFloatOfNat(n, "s");
    assert ParseFloat(b) == Some(n as real);
    assert !EndsWith(b, "ms") by {
      assert b[|b| - 2] == digits[|digits| - 1];
      assert IsDigit(digits[|digits| - 1]);
    }
    assert b != "";
  }

  // ---------------------------------------------------------------- split(/\s+/)

  /** The index of the first white-space character of `s`, or |s|. */
  function FirstSpace(s: string): (i: nat)
    ensures i <= |s|
    ensures forall k :: 0 <= k < i ==> !IsJsSpace(s[k])
    ensures i < |s| ==> IsJsSpace(s[i])
  {
    if |s| == 0 || IsJsSpace(s[0]) then 0 else 1 + FirstSpace(s[1..])
  }

  predicate SpaceFree(s: string)
  {
    forall k :: 0 <= k < |s| ==> !IsJsSpace(s[k])
  }

  /** `s.split(/\s+/)`: the pieces between maximal runs of white space (a leading or
      trailing run gives an empty first or last piece). */
  function SplitWs(s: string): (parts: seq<string>)
    ensures |parts| >= 1
    ensures forall k :: 0 <= k < |parts| ==> SpaceFree(parts[k])
    decreases |s|
  {
    var i := FirstSpace(s);
    if i == |s| then [s]
    else
      var rest := s[i..];
      [s[..i]] + SplitWs(rest[LeadingSpace(rest)..])
  }

  lemma {:induction false} FirstSpaceAfterFree(a: string, b: string)
    requires SpaceFree(a)
    ensures FirstSpace(a + b) == |a| + FirstSpace(b)
  {
    if |a| > 0 {
      assert (a + b)[1..] == a[1..] + b;
      FirstSpaceAfterFree(a[1..], b);
    } else {
      assert a + b == b;
    }
  }

  /** `pieces.join(' ')`. */
  function JoinSpace(words: seq<string>): string
  {
    if |words| == 0 then "" else if |words| == 1 then words[0] else words[0] + " " + JoinSpace(words[1..])
  }

  /** Splitting words joined by single spaces gives back the words. */
  lemma {:induction false} SplitWsJoinSpace(words: seq<string>)
    requires |words| >= 1
    requires forall k :: 0 <= k < |words| ==> |words[k]| > 0 && SpaceFree(words[k])
    ensures SplitWs(JoinSpace(words)) == words
  {
    if |words| == 1 {
      FirstSpaceAfterFree(words[0], "");
      assert words[0] + "" == words[0];
    } else {
      JoinSpaceStart(words[1..]);
      SplitWsCons(words[0], JoinSpace(words[1..]));
      SplitWsJoinSpace(words[1..]);
      assert words == [words[0]] + words[1..];
    }
  }

  /** One word, one space, and text that starts with a non-space character. */
  lemma SplitWsCons(w: string, rest: string)
    requires |w| > 0 && SpaceFree(w) && |rest| > 0 && !IsJsSpace(rest[0])
    ensures SplitWs(w + " " + rest) == [w] + SplitWs(rest)
  {
    var s := w + " " + rest;
    assert s == w + (" " + rest);
    FirstSpaceAfterFree(w, " " + rest);
    assert s[..|w|] == w;
    var tail := s[|w|..];
    assert tail == " " + rest;
    assert tail[1..] == rest;
    assert LeadingSpace(tail) == 1 by { assert LeadingSpace(tail[1..]) == 0; }
  }

  lemma {:induction false} JoinSpaceStart(words: seq<string>)
    requires |words| >= 1
    requires forall k :: 0 <= k < |words| ==> |words[k]| > 0 && SpaceFree(words[k])
    ensures |JoinSpace(words)| > 0 && JoinSpace(words)[0] == words[0][0]
  {
    if |words| > 1 {
      assert JoinSpace(words) == words[0] + (" " + JoinSpace(words[1..]));
    }
  }

  // ---------------------------------------------------------------- one transition

  /** The `timingFunction` key: absent when the third token is a time string. */
  datatype TimingField = NoTimingKey | TimingKey(timing: Option<string>)

  datatype Transition = Transition(name: string, duration: Millis, delay: Millis, timingFunction: TimingField)

  function Part(parts: seq<string>, i: nat): Option<string>
  {
    if i < |parts| then Some(parts[i]) else None
  }

  /** `isTimeString(parts[i])`; a missing token is tested as the string `"undefined"`,
      which is not a time string. */
  predicate IsTimeToken(p: Option<string>)
  {
    p.Some? && IsTimeString(p.value)
  }

  /** `parseSingleTransition`: name, duration, then either a delay (when the third token is
      a time string) or a timing function and a delay. */
  function ParseSingleTransition(transition: string): (t: Transition)
    ensures t.name == SplitWs(transition)[0] && SpaceFree(t.name)
    ensures t.duration == TimeToMs(Part(SplitWs(transition), 1))
    ensures t.timingFunction.NoTimingKey? <==> IsTimeToken(Part(SplitWs(transition), 2))
    ensures t.timingFunction.NoTimingKey? ==> t.delay == TimeToMs(Part(SplitWs(transition), 2))
    ensures t.timingFunction.TimingKey? ==>
              t.timingFunction.timing == Part(SplitWs(transition), 2) && t.delay == TimeToMs(Part(SplitWs(transition), 3))
  {
    var parts := SplitWs(transition);
    var third := Part(parts, 2);
    if IsTimeToken(third) then
      Transition(parts[0], TimeToMs(Part(parts, 1)), TimeToMs(third), NoTimingKey)
    else
      Transition(parts[0], TimeToMs(Part(parts, 1)), TimeToMs(Part(parts, 3)), TimingKey(third))
  }

  /** `name duration timing delay` is read back field by field. */
  lemma ParseFullTransition(name: string, duration: nat, timing: string, delay: nat)
    requires |name| > 0 && SpaceFree(name) && |timing| > 0 && SpaceFree(timing) && !IsTimeString(timing)
    ensures ParseSingleTransition(JoinSpace([name, NatToString(duration) + "ms", timing, NatToString(delay) + "s"]))
            == Transition(name, Ms(duration as real), Ms(delay as real * 1000.0), TimingKey(Some(timing)))
  {
    WordOfNat(duration, "ms");
    WordOfNat(delay, "s");
    ParseFourWords(name, NatToString(duration) + "ms", timing, NatToString(delay) + "s");
    TimeToMsOfNatMs(duration);
    TimeToMsOfNatSeconds(delay);
  }

  /** `name duration delay`: the third token is a time string, so it is the delay and there is
      no timing function. */
  lemma ParseShortTransition(name: string, duration: nat, delay: nat)
    requires |name| > 0 && SpaceFree(name)
    ensures ParseSingleTransition(JoinSpace([name, NatToString(duration) + "ms", NatToString(delay) + "ms"]))
            == Transition(name, Ms(duration as real), Ms(delay as real), NoTimingKey)
  {
    WordOfNat(duration, "ms");
    WordOfNat(delay, "ms");
    MillisecondWordIsTime(delay);
    ParseThreeWords(name, NatToString(duration) + "ms", NatToString(delay) + "ms");
    TimeToMsOfNatMs(duration);
    TimeToMsOfNatMs(delay);
  }

  /** Four words whose third is not a time string: name, duration, timing, delay. */
  lemma ParseFourWords(w0: string, w1: string, w2: string, w3: string)
    requires |w0| > 0 && SpaceFree(w0) && |w1| > 0 && SpaceFree(w1)
    requires |w2| > 0 && SpaceFree(w2) && |w3| > 0 && SpaceFree(w3)
    requires !IsTimeString(w2)
    ensures ParseSingleTransition(JoinSpace([w0, w1, w2, w3]))
            == Transition(w0, TimeToMs(Some(w1)), TimeToMs(Some(w3)), TimingKey(Some(w2)))
  {
    var words := [w0, w1, w2, w3];
    forall k | 0 <= k < |words|
      ensures |words[k]| > 0 && SpaceFree(words[k])
    {
      if k == 0 {} else if k == 1 {} else if k == 2 {} else {}
    }
    ParseOfWords(words);
  }

  /** Three words whose third is a time string: name, duration, delay. */
  lemma ParseThreeWords(w0: string, w1: string, w2: string)
    requires |w0| > 0 && SpaceFree(w0) && |w1| > 0 && SpaceFree(w1) && |w2| > 0 && SpaceFree(w2)
    requires IsTimeString(w2)
    ensures ParseSingleTransition(JoinSpace([w0, w1, w2]))
            == Transition(w0, TimeToMs(Some(w1)), TimeToMs(Some(w2)), NoTimingKey)
  {
    var words := [w0, w1, w2];
    forall k | 0 <= k < |words|
      ensures |words[k]| > 0 && SpaceFree(words[k])
    {
      if k == 0 {} else if k == 1 {} else {}
    }
    ParseOfWords(words);
  }

  /** Words joined by single spaces are parsed token by token. */
  lemma ParseOfWords(words: seq<string>)
    requires |words| >= 1
    requires forall k :: 0 <= k < |words| ==> |words[k]| > 0 && SpaceFree(words[k])
    ensures var t := ParseSingleTransition(JoinSpace(words));
      && t.name == words[0] && t.duration == TimeToMs(Part(words, 1))
      && (IsTimeToken(Part(words, 2)) ==> t.delay == TimeToMs(Part(words, 2)) && t.timingFunction == NoTimingKey)
      && (!IsTimeToken(Part(words, 2)) ==> t.delay == TimeToMs(Part(words, 3)) && t.timingFunction == TimingKey(Part(words, 2)))
  {
    SplitWsJoinSpace(words);
  }

  lemma MillisecondWordIsTime(n: nat)
    ensures IsTimeString(NatToString(n) + "ms")
  {
    TimeStringComplete("", "", NatToString(n), "ms");
    assert "" + ("" + (NatToString(n) + "ms")) == NatToString(n) + "ms";
  }

  lemma WordOfNat(n: nat, unit: string)
    requires unit == "s" || unit == "ms"
    ensures |NatToString(n) + unit| > 0 && SpaceFree(NatToString(n) + unit)
  {
    var w := NatToString(n) + unit;
    forall k | 0 <= k < |w|
      ensures !IsJsSpace(w[k])
    {
      if k < |NatToString(n)| {
        assert IsDigit(NatToString(n)[k]);
      }
    }
  }

  // ---------------------------------------------------------------- the list

  /** The length of one repetition unit of `([^,()]|\([^)]*\))` at the start of `s`:
      one character other than `,`, `(` and `)`, or a `(` through the first `)`; 0 if neither. */
  function UnitLength(s: string): (u: nat)
    requires |s| > 0
    ensures u <= |s|
    ensures u == 0 <==> s[0] == ',' || s[0] == ')' || (s[0] == '(' && ')' !in s[1..])
  {
    if s[0] != ',' && s[0] != '(' && s[0] != ')' then 1
    else if s[0] == '(' then
      var j := IndexOf(s[1..], ')');
      if j < |s| - 1 then j + 2 else 0
    else 0
  }

  /** The length of the greedy match of `(...)+` at the start of `s` (0 when there is none). */
  function RunLength(s: string): (n: nat)
    ensures n <= |s|
    decreases |s|
  {
    if |s| == 0 then 0
    else
      var u := UnitLength(s);
      if u == 0 then 0 else u + RunLength(s[u..])
  }

  /** `s.match(/([^,()]|\([^)]*\))+/g)`: every match, scanning left to right and resuming
      after each match, or one character later where none starts. */
  function Matches(s: string): (ms: seq<string>)
    ensures forall k :: 0 <= k < |ms| ==> |ms[k]| > 0
    decreases |s|
  {
    if |s| == 0 then []
    else
      var n := RunLength(s);
      if n == 0 then Matches(s[1..]) else [s[..n]] + Matches(s[n..])
  }

  /** The pieces that are not empty, in their order (`NonEmptyAppend`, `NonEmptyCons`). */
  function NonEmpty(ps: seq<string>): (r: seq<string>)
    ensures forall k :: 0 <= k < |r| ==> |r[k]| > 0
    ensures |r| <= |ps|
    ensures forall p :: p in r <==> p in ps && p != ""
    ensures |r| == |ps| - multiset(ps)[""]
  {
    if |ps| == 0 then []
    else
      assert ps == [ps[0]] + ps[1..];
      if ps[0] == "" then NonEmpty(ps[1..]) else [ps[0]] + NonEmpty(ps[1..])
  }

  /** Dropping the empty pieces distributes over concatenation, so the pieces kept stay in
      their order. */
  lemma {:induction false} NonEmptyAppend(ps: seq<string>, qs: seq<string>)
    ensures NonEmpty(ps + qs) == NonEmpty(ps) + NonEmpty(qs)
    decreases |ps|
  {
    if |ps| == 0 {
      assert ps + qs == qs;
    } else {
      var p, rest := ps[0], ps[1..];
      var head := if p == "" then [] else [p];
      assert (ps + qs)[0] == p && (ps + qs)[1..] == rest + qs;
      calc {
        NonEmpty(ps + qs);
        head + NonEmpty(rest + qs);
        { NonEmptyAppend(rest, qs); }
        head + (NonEmpty(rest) + NonEmpty(qs));
        (head + NonEmpty(rest)) + NonEmpty(qs);
        NonEmpty(ps) + NonEmpty(qs);
      }
    }
  }

  /** Without parentheses a match runs up to the next comma. */
  lemma {:induction false} RunLengthNoParens(s: string)
    requires '(' !in s && ')' !in s
    ensures RunLength(s) == IndexOf(s, ',')
    decreases |s|
  {
    if |s| > 0 && s[0] != ',' {
      assert s[1..][..] == s[1..];
      assert '(' !in s[1..] && ')' !in s[1..] by {
        forall k | 0 <= k < |s[1..]| ensures s[1..][k] != '(' && s[1..][k] != ')' {
          assert s[1..][k] == s[k + 1];
        }
      }
      RunLengthNoParens(s[1..]);
    }
  }

  /** Without parentheses the matches are exactly the non-empty pieces between commas. */
  lemma {:induction false} MatchesNoParens(s: string)
    requires '(' !in s && ')' !in s
    ensures Matches(s) == NonEmpty(SplitOn(s, ','))
    decreases |s|
  {
    if |s| > 0 {
      var i := IndexOf(s, ',');
      if i < |s| {
        MatchesAtComma(s);
        NoParensSuffix(s, i + 1);
        MatchesNoParens(s[i + 1..]);
        NonEmptyCons(s[..i], SplitOn(s[i + 1..], ','));
      } else {
        MatchesNoComma(s);
      }
    }
  }

  /** Up to the first comma: one match (none when the comma comes first), then the
      matches after the comma. */
  lemma MatchesAtComma(s: string)
    requires '(' !in s && ')' !in s && IndexOf(s, ',') < |s|
    ensures var i := IndexOf(s, ',');
      && Matches(s) == (if i == 0 then [] else [s[..i]]) + Matches(s[i + 1..])
      && SplitOn(s, ',') == [s[..i]] + SplitOn(s[i + 1..], ',')
  {
    RunLengthNoParens(s);
    var i := IndexOf(s, ',');
    if i > 0 {
      CommaEndsRun(s, i);
    }
  }

  /** After a match that stops at a comma, the comma is skipped. */
  lemma CommaEndsRun(s: string, i: nat)
    requires 0 < i < |s| && s[i] == ',' && RunLength(s) == i
    ensures Matches(s) == [s[..i]] + Matches(s[i + 1..])
  {
    var t := s[i..];
    assert t[0] == ',';
    assert RunLength(t) == 0;
    assert t[1..] == s[i + 1..];
  }

  /** A string without commas or parentheses is one match and one piece. */
  lemma MatchesNoComma(s: string)
    requires '(' !in s && ')' !in s && IndexOf(s, ',') == |s| && |s| > 0
    ensures Matches(s) == [s] && NonEmpty(SplitOn(s, ',')) == [s]
  {
    RunLengthNoParens(s);
    assert s[..|s|] == s && s[|s|..] == "";
    assert SplitOn(s, ',') == [s];
    assert NonEmpty([s]) == [s] by { assert [s][1..] == []; }
  }

  /** Dropping the empty pieces, one piece at a time. */
  lemma NonEmptyCons(p: string, ps: seq<string>)
    ensures NonEmpty([p] + ps) == (if p == "" then [] else [p]) + NonEmpty(ps)
  {
    assert ([p] + ps)[1..] == ps;
  }

  lemma NoParensSuffix(s: string, i: nat)
    requires '(' !in s && ')' !in s && i <= |s|
    ensures '(' !in s[i..] && ')' !in s[i..]
  {
    forall k | 0 <= k < |s[i..]| ensures s[i..][k] != '(' && s[i..][k] != ')' {
      assert s[i..][k] == s[i + k];
    }
  }

  /** A parenthesised group is one unit however many commas and `(` it holds. */
  lemma ParenthesisedUnit(inner: string, rest: string)
    requires ')' !in inner
    ensures UnitLength("(" + inner + ")" + rest) == |inner| + 2
  {
    var s := "(" + inner + ")" + rest;
    assert s[1..] == inner + (")" + rest);
    IndexOfAfterFree(inner, ")" + rest, ')');
    assert (")" + rest)[0] == ')';
  }

  /** A parenthesised group followed by a comma is one whole match, however many commas
      it holds, and the list goes on after the comma. */
  lemma MatchesParenthesisedHead(inner: string, rest: string)
    requires ')' !in inner
    ensures Matches("(" + inner + ")" + "," + rest) == ["(" + inner + ")"] + Matches(rest)
  {
    var group := "(" + inner + ")";
    var s := group + "," + rest;
    var tail := "," + rest;
    assert s == "(" + inner + ")" + tail;
    ParenthesisedUnit(inner, tail);
    var n := |inner| + 2;
    assert s[n..] == tail && s[..n] == group;
    assert UnitLength(tail) == 0;
    assert RunLength(tail) == 0;
    assert RunLength(s) == n;
    assert tail[1..] == rest;
    assert Matches(tail) == Matches(rest);
  }

  /** A comma inside parentheses does not split: `a(b,c),d` has the matches `a(b,c)` and `d`. */
  lemma MatchesKeepParenthesised()
    ensures Matches("a(b,c),d") == ["a(b,c)", "d"]
  {
    var s := "a(b,c),d";
    var group := s[1..];
    assert group == "(" + "b,c" + ")" + ",d";
    ParenthesisedUnit("b,c", ",d");
    var tail := group[5..];
    assert tail == ",d";
    assert UnitLength(tail) == 0;
    assert RunLength(tail) == 0;
    assert RunLength(group) == 5;
    assert UnitLength(s) == 1;
    assert RunLength(s) == 6;
    assert s[..6] == "a(b,c)" && s[6..] == ",d";
    SingleCharMatch("d");
    assert ",d"[1..] == "d";
    assert Matches(",d") == ["d"];
  }

  lemma SingleCharMatch(c: string)
    requires |c| == 1 && c[0] != ',' && c[0] != '(' && c[0] != ')'
    ensures RunLength(c) == 1 && Matches(c) == [c]
  {
    assert c[1..] == "" && c[..1] == c;
  }

  function TrimAll(ps: seq<string>): (r: seq<string>)
    ensures |r| == |ps|
    ensures forall k :: 0 <= k < |ps| ==> r[k] == Trim(ps[k])
  {
    if |ps| == 0 then [] else [Trim(ps[0])] + TrimAll(ps[1..])
  }

  function ParseAll(ps: seq<string>): (r: seq<Transition>)
    requires forall k :: 0 <= k < |ps| ==> |ps[k]| > 0 && !IsJsSpace(ps[k][0])
    ensures |r| == |ps|
    ensures forall k :: 0 <= k < |ps| ==> r[k] == ParseSingleTransition(ps[k]) && |r[k].name| > 0
  {
    if |ps| == 0 then []
    else
      NameOfUntrimmedStart(ps[0]);
      var rest := ps[1..];
      assert forall k :: 0 <= k < |rest| ==> rest[k] == ps[k + 1];
      var tail := ParseAll(rest);
      var r := [ParseSingleTransition(ps[0])] + tail;
      assert forall k :: 1 <= k < |r| ==> r[k] == tail[k - 1];
      r
  }

  lemma NameOfUntrimmedStart(p: string)
    requires |p| > 0 && !IsJsSpace(p[0])
    ensures |SplitWs(p)[0]| > 0
  {
  }

  lemma NonEmptyTrimmedStart(ps: seq<string>)
    requires forall k :: 0 <= k < |ps| ==> |ps[k]| == 0 || !IsJsSpace(ps[k][0])
    ensures forall k :: 0 <= k < |NonEmpty(ps)| ==> !IsJsSpace(NonEmpty(ps)[k][0])
  {
    if |ps| > 0 {
      NonEmptyTrimmedStart(ps[1..]);
    }
  }

  /** `parseTransition`: match, trim, drop empty pieces, parse each. When nothing matches,
      `match` returns `null` and the `.map` call throws. */
  function ParseTransition(s: string): (r: Result<seq<Transition>>)
    ensures r.TypeError? <==> Matches(s) == []
    ensures r.Ok? <==> Matches(s) != []
    ensures r.Ok? ==> |r.value| <= |Matches(s)|
    ensures r.Ok? ==> forall k :: 0 <= k < |r.value| ==> |r.value[k].name| > 0 && SpaceFree(r.value[k].name)
    ensures r.Ok? ==> var ps := NonEmpty(TrimAll(Matches(s)));
      |r.value| == |ps| && forall k :: 0 <= k < |ps| ==> r.value[k] == ParseSingleTransition(ps[k])
  {
    var ms := Matches(s);
    if ms == [] then TypeError
    else Ok(ParseAllTrimmed(ms))
  }

  /** Trim every piece, keep the non-empty ones, and parse each. */
  function ParseAllTrimmed(ms: seq<string>): (r: seq<Transition>)
    ensures |r| <= |ms|
    ensures forall k :: 0 <= k < |r| ==> |r[k].name| > 0 && SpaceFree(r[k].name)
    ensures var ps := NonEmpty(TrimAll(ms));
      |r| == |ps| && forall k :: 0 <= k < |ps| ==> r[k] == ParseSingleTransition(ps[k])
  {
    var trimmed := TrimAll(ms);
    NonEmptyTrimmedStart(trimmed);
    ParseAll(NonEmpty(trimmed))
  }

  lemma TrimAllCons(p: string, ps: seq<string>)
    ensures TrimAll([p] + ps) == [Trim(p)] + TrimAll(ps)
  {
  }

  /** Trimming leaves an empty piece empty, so dropping the empty pieces before trimming
      changes nothing once the pieces empty after trimming are dropped. */
  lemma {:induction false} NonEmptyTrimNonEmpty(ps: seq<string>)
    ensures NonEmpty(TrimAll(NonEmpty(ps))) == NonEmpty(TrimAll(ps))
  {
    if |ps| > 0 {
      var p, rest := ps[0], ps[1..];
      assert ps == [p] + rest;
      NonEmptyTrimNonEmpty(rest);
      NonEmptyCons(p, rest);
      TrimAllCons(p, rest);
      NonEmptyCons(Trim(p), TrimAll(rest));
      if p != "" {
        TrimAllCons(p, NonEmpty(rest));
        NonEmptyCons(Trim(p), TrimAll(NonEmpty(rest)));
      }
    }
  }

  predicate OnlyCommas(s: string)
  {
    forall k :: 0 <= k < |s| ==> s[k] == ','
  }

  lemma OnlyCommasTail(s: string)
    requires |s| > 0
    ensures OnlyCommas(s) <==> s[0] == ',' && OnlyCommas(s[1..])
  {
    if s[0] == ',' && OnlyCommas(s[1..]) {
      forall k | 0 < k < |s| ensures s[k] == ',' {
        assert s[k] == s[1..][k - 1];
      }
    }
  }

  /** The comma pieces are all empty exactly when the string is made only of commas. */
  lemma {:induction false} NoPiecesOnlyCommas(s: string)
    ensures NonEmpty(SplitOn(s, ',')) == [] <==> OnlyCommas(s)
    decreases |s|
  {
    var i := IndexOf(s, ',');
    if i == |s| {
      NonEmptyCons(s, []);
      assert [s] + [] == [s];
      if |s| > 0 {
        assert s[0] != ',';
      }
    } else {
      var rest := SplitOn(s[i + 1..], ',');
      assert SplitOn(s, ',') == [s[..i]] + rest;
      NonEmptyCons(s[..i], rest);
      OnlyCommasTail(s);
      if i == 0 {
        assert s[..i] == "" && s[i + 1..] == s[1..];
        NoPiecesOnlyCommas(s[1..]);
      } else {
        assert |s[..i]| > 0 && s[0] != ',';
      }
    }
  }

  /** Without parentheses, `parseTransition` throws exactly when the shorthand holds nothing
      but commas; otherwise it parses, in order, every comma-separated piece that is not
      blank once trimmed. */
  lemma ParseNoParens(s: string)
    requires '(' !in s && ')' !in s
    ensures ParseTransition(s).TypeError? <==> OnlyCommas(s)
    ensures ParseTransition(s).Ok? ==> var ps := NonEmpty(TrimAll(SplitOn(s, ',')));
      |ParseTransition(s).value| == |ps|
      && forall k :: 0 <= k < |ps| ==> ParseTransition(s).value[k] == ParseSingleTransition(ps[k])
  {
    MatchesNoParens(s);
    NoPiecesOnlyCommas(s);
    NonEmptyTrimNonEmpty(SplitOn(s, ','));
  }

  /** An empty shorthand, or one made only of commas, makes `parseTransition` throw. */
  lemma NothingToMatchThrows()
    ensures ParseTransition("").TypeError?
    ensures ParseTransition(",,").TypeError?
  {
    assert ",,"[1..] == ",";
    assert ","[1..] == "";
  }
}
