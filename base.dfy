/** Small value types and string helpers shared by the modules of this model. */
module Base {

  /** `undefined`/`null` versus a present value. */
  datatype Option<+T> = None | Some(value: T) {
    function GetOr(default: T): T {
      match this
      case Some(v) => v
      case None => default
    }
  }

  /** A value, or the exception the JavaScript code would throw: a TypeError or a
      DOMException with its name (`HierarchyRequestError`, `SyntaxError`, ...). */
  datatype Result<+T> = Ok(value: T) | TypeError | DomException(name: string)

  /** The index of the first occurrence of `c` in `s`, or |s| when there is none. */
  function IndexOf<T(==)>(s: seq<T>, c: T): (i: nat)
    ensures i <= |s|
    ensures i < |s| ==> s[i] == c
    ensures forall k :: 0 <= k < i ==> s[k] != c
  {
    if |s| == 0 then 0
    else if s[0] == c then 0
    else 1 + IndexOf(s[1..], c)
  }

  /** `s.split(c)` for a one-character separator: the pieces between the occurrences of `c`. */
  function SplitOn(s: string, c: char): (pieces: seq<string>)
    ensures |pieces| >= 1
    decreases |s|
  {
    var i := IndexOf(s, c);
    if i == |s| then [s]
    else [s[..i]] + SplitOn(s[i + 1..], c)
  }

  /** No piece holds the separator. */
  lemma {:induction false} SplitOnPiecesFree(s: string, c: char)
    ensures forall k :: 0 <= k < |SplitOn(s, c)| ==> c !in SplitOn(s, c)[k]
    decreases |s|
  {
    var i := IndexOf(s, c);
    if i < |s| {
      SplitOnPiecesFree(s[i + 1..], c);
      var tail := SplitOn(s[i + 1..], c);
      assert SplitOn(s, c) == [s[..i]] + tail;
      assert forall k :: 1 <= k < |SplitOn(s, c)| ==> SplitOn(s, c)[k] == tail[k - 1];
    }
  }

  /** `pieces.join(c)`. */
  function Join(pieces: seq<string>, c: char): string
  {
    if |pieces| == 0 then ""
    else if |pieces| == 1 then pieces[0]
    else pieces[0] + [c] + Join(pieces[1..], c)
  }

  /** Splitting and joining again gives back the string. */
  lemma {:induction false} JoinSplitOn(s: string, c: char)
    ensures Join(SplitOn(s, c), c) == s
    decreases |s|
  {
    var i := IndexOf(s, c);
    if i < |s| {
      JoinSplitOn(s[i + 1..], c);
      assert s == s[..i] + [c] + s[i + 1..];
    }
  }

  /** When the pieces contain no separator, splitting their join gives them back. */
  lemma {:induction false} SplitOnJoin(pieces: seq<string>, c: char)
    requires |pieces| >= 1
    requires forall k :: 0 <= k < |pieces| ==> c !in pieces[k]
    ensures SplitOn(Join(pieces, c), c) == pieces
  {
    if |pieces| > 1 {
      var rest := Join(pieces[1..], c);
      var s := pieces[0] + [c] + rest;
      assert ([c] + rest)[0] == c;
      assert IndexOf([c] + rest, c) == 0;
      IndexOfAfterFree(pieces[0], [c] + rest, c);
      assert s == pieces[0] + ([c] + rest);
      assert IndexOf(s, c) == |pieces[0]|;
      assert s[..|pieces[0]|] == pieces[0];
      assert s[|pieces[0]| + 1..] == rest;
      assert Join(pieces, c) == s;
      SplitOnJoin(pieces[1..], c);
      assert pieces == [pieces[0]] + pieces[1..];
    } else {
      IndexOfAfterFree(pieces[0], [], c);
      assert pieces[0] + [] == pieces[0];
    }
  }

  lemma {:induction false} IndexOfAfterFree(a: string, b: string, c: char)
    requires c !in a
    ensures IndexOf(a + b, c) == |a| + IndexOf(b, c)
  {
    if |a| > 0 {
      assert (a + b)[1..] == a[1..] + b;
      IndexOfAfterFree(a[1..], b, c);
    } else {
      assert a + b == b;
    }
  }

  /** The sequence with every occurrence of `x` left out. */
  function Without<T(==,!new)>(s: seq<T>, x: T): (r: seq<T>)
    ensures x !in r && forall y :: y in r <==> y in s && y != x
  {
    if |s| == 0 then []
    else if s[0] == x then Without(s[1..], x)
    else [s[0]] + Without(s[1..], x)
  }

  /** In a sequence holding `x` only at `i`, removing position `i` removes `x`. */
  lemma {:induction false} WithoutAt<T(!new)>(s: seq<T>, i: nat)
    requires i < |s| && forall k :: 0 <= k < |s| && k != i ==> s[k] != s[i]
    ensures s[..i] + s[i + 1..] == Without(s, s[i])
  {
    if i == 0 {
      WithoutAbsent(s[1..], s[0]);
      assert s[..0] + s[1..] == s[1..];
    } else {
      assert s[1..][..i - 1] == s[1..i];
      WithoutAt(s[1..], i - 1);
      assert s[..i] + s[i + 1..] == [s[0]] + (s[1..][..i - 1] + s[1..][i..]);
    }
  }

  lemma {:induction false} WithoutAbsent<T(!new)>(s: seq<T>, x: T)
    requires x !in s
    ensures Without(s, x) == s
  {
    if |s| > 0 {
      WithoutAbsent(s[1..], x);
      assert s == [s[0]] + s[1..];
    }
  }

  /** The characters JavaScript's `\s` and `String.prototype.trim` treat as white space
      (WhiteSpace and LineTerminator of section 12.2 and 12.3 of ECMA-262). */
  predicate IsJsSpace(ch: char)
  {
    ch == ' ' || ch == '\t' || ch == '\n' || ch == '\r' || ch == '\U{000B}' || ch == '\U{000C}'
    || ch == '\U{00A0}' || ch == '\U{1680}' || ('\U{2000}' <= ch <= '\U{200A}')
    || ch == '\U{2028}' || ch == '\U{2029}' || ch == '\U{202F}' || ch == '\U{205F}'
    || ch == '\U{3000}' || ch == '\U{FEFF}'
  }

  /** The number of leading white-space characters of `s`. */
  function LeadingSpace(s: string): (n: nat)
    ensures n <= |s|
    ensures forall k :: 0 <= k < n ==> IsJsSpace(s[k])
    ensures n < |s| ==> !IsJsSpace(s[n])
  {
    if |s| > 0 && IsJsSpace(s[0]) then 1 + LeadingSpace(s[1..]) else 0
  }

  /** The number of trailing white-space characters of `s`. */
  function TrailingSpace(s: string): (n: nat)
    ensures n <= |s|
    ensures forall k :: |s| - n <= k < |s| ==> IsJsSpace(s[k])
    ensures n < |s| ==> !IsJsSpace(s[|s| - 1 - n])
  {
    if |s| > 0 && IsJsSpace(s[|s| - 1]) then 1 + TrailingSpace(s[..|s| - 1]) else 0
  }

  /** `s` is white space except for the `n` characters from index `i` on. */
  predicate SpaceOutside(s: string, i: nat, n: nat)
  {
    i + n <= |s|
    && (forall k :: 0 <= k < i ==> IsJsSpace(s[k]))
    && (forall k :: i + n <= k < |s| ==> IsJsSpace(s[k]))
  }

  /** `s.trim()`: the part of `s` between its leading and trailing white space. */
  function Trim(s: string): (t: string)
    ensures |t| <= |s|
    ensures |t| > 0 ==> !IsJsSpace(t[0]) && !IsJsSpace(t[|t| - 1])
    ensures (|s| == 0 || (!IsJsSpace(s[0]) && !IsJsSpace(s[|s| - 1]))) ==> t == s
    ensures (forall k :: 0 <= k < |s| ==> IsJsSpace(s[k])) ==> t == ""
    ensures exists a: nat :: SpaceOutside(s, a, |t|) && t == s[a..a + |t|]
  {
    var a := LeadingSpace(s);
    var rest := s[a..];
    var b := TrailingSpace(rest);
    var t := rest[..|rest| - b];
    assert t == s[a..a + |t|];
    assert SpaceOutside(s, a, |t|) by {
      forall k | a + |t| <= k < |s| ensures IsJsSpace(s[k]) {
        assert s[k] == rest[k - a];
      }
    }
    t
  }
}
