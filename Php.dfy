/**
 * The small part of PHP's string library that the blob, diff and snapshot
 * code relies on, written out with the exact PHP semantics that matter:
 * `strpos`/`strrpos` return an index or `false`, `strtok` skips leading
 * delimiters, `explode` always yields at least one piece, `str_replace`
 * scans left to right without overlaps, and `empty()` holds of "" and "0".
 */
module Php {

  datatype Option<T> = None | Some(value: T) {
    function GetOr(default: T): T {
      match this
      case Some(v) => v
      case None => default
    }
  }

  /** PHP strings hold bytes. */
  type Byte = b: int | 0 <= b < 256
  type Bytes = seq<Byte>

  const NUL: Byte := 0
  const NEWLINE: Byte := 10

  /** `empty($s)` for a string: true of "" and of "0". */
  predicate Empty(s: string) {
    s == "" || s == "0"
  }

  /** `!$data` for a byte string: the same two falsy values, "" and "0". */
  predicate FalsyBytes(d: Bytes) {
    d == [] || d == [48]
  }

  /** `strpos($s, $x)`: the first index holding `x`, or None for PHP's `false`. */
  function StrPos<T(==)>(s: seq<T>, x: T): (r: Option<nat>)
    ensures r.Some? ==> r.value < |s| && s[r.value] == x
    ensures r.Some? ==> forall j :: 0 <= j < r.value ==> s[j] != x
    ensures r.None? <==> x !in s
  {
    if |s| == 0 then None
    else if s[0] == x then Some(0)
    else
      match StrPos(s[1..], x)
      case None => None
      case Some(i) => Some(i + 1)
  }

  /** `strpos($s, $x)` used as a condition: found, and not at index 0. */
  predicate FoundAfterStart<T(==)>(s: seq<T>, x: T) {
    var p := StrPos(s, x);
    p.Some? && p.value > 0
  }

  /** `strrpos($s, $x)`: the last index holding `x`, or None for `false`. */
  function StrRPos<T(==)>(s: seq<T>, x: T): (r: Option<nat>)
    ensures r.Some? ==> r.value < |s| && s[r.value] == x
    ensures r.Some? ==> forall j :: r.value < j < |s| ==> s[j] != x
    ensures r.None? <==> x !in s
  {
    if |s| == 0 then None
    else if s[|s| - 1] == x then Some(|s| - 1)
    else
      var r := StrRPos(s[..|s| - 1], x);
      assert forall j :: 0 <= j < |s| - 1 ==> s[..|s| - 1][j] == s[j];
      r
  }

  /**
   * `t` sits at index `k` of `s` as the first token for delimiter `c`: only
   * delimiters before it, and a delimiter or the end right after it.
   */
  predicate TokenAt(s: string, c: char, t: string, k: int) {
    && 0 <= k && k + |t| <= |s|
    && (forall i :: 0 <= i < k ==> s[i] == c)
    && s[k..k + |t|] == t
    && (k + |t| < |s| ==> s[k + |t|] == c)
  }

  /** `t` is the first token of `s` for delimiter `c`. */
  ghost predicate FirstToken(s: string, c: char, t: string) {
    exists k :: TokenAt(s, c, t, k)
  }

  /**
   * A first call `strtok($s, $c)`: leading delimiters are skipped, then the
   * text up to the next delimiter is returned; None stands for PHP's `false`
   * (nothing but delimiters).
   */
  function StrTok(s: string, c: char): (r: Option<string>)
    ensures r.Some? ==> r.value != "" && c !in r.value && FirstToken(s, c, r.value)
    ensures r.None? <==> forall i :: 0 <= i < |s| ==> s[i] == c
  {
    if s == [] then None
    else if s[0] == c then
      var r := StrTok(s[1..], c);
      assert forall i :: 1 <= i < |s| ==> s[i] == s[1..][i - 1];
      if r.Some? then
        FirstTokenAfterDelimiter(s, c, r.value);
        r
      else r
    else
      match StrPos(s, c)
      case None =>
        assert TokenAt(s, c, s, 0);
        Some(s)
      case Some(i) =>
        assert TokenAt(s, c, s[..i], 0);
        Some(s[..i])
  }

  /** A leading delimiter is skipped on the way to the first token. */
  lemma FirstTokenAfterDelimiter(s: string, c: char, t: string)
    requires s != [] && s[0] == c && FirstToken(s[1..], c, t)
    ensures FirstToken(s, c, t)
  {
    var k :| TokenAt(s[1..], c, t, k);
    assert s[k + 1..k + 1 + |t|] == s[1..][k..k + |t|];
    assert TokenAt(s, c, t, k + 1);
  }

  /** A non-empty token free of the delimiter is determined by the text. */
  lemma FirstTokenUnique(s: string, c: char, t1: string, t2: string)
    requires t1 != "" && c !in t1 && FirstToken(s, c, t1)
    requires t2 != "" && c !in t2 && FirstToken(s, c, t2)
    ensures t1 == t2
  {
    var k1 :| TokenAt(s, c, t1, k1);
    var k2 :| TokenAt(s, c, t2, k2);
    TokenAtNoDelimiter(s, c, t1, k1);
    TokenAtNoDelimiter(s, c, t2, k2);
    assert k1 == k2;
    assert |t1| == |t2|;
  }

  /** The characters a token covers are not delimiters. */
  lemma TokenAtNoDelimiter(s: string, c: char, t: string, k: int)
    requires c !in t && TokenAt(s, c, t, k)
    ensures forall i :: k <= i < k + |t| ==> s[i] != c
    ensures t != "" ==> s[k] != c
    ensures k + |t| < |s| ==> s[k + |t|] == c
  {
    forall i | k <= i < k + |t|
      ensures s[i] != c
    {
      assert s[i] == s[k..k + |t|][i - k];
    }
  }

  /** The value of `strtok` as the callers use it, PHP's `false` rendered as "". */
  function StrTokOrEmpty(s: string, c: char): string {
    StrTok(s, c).GetOr("")
  }

  /** When `s` does not start with the delimiter, `strtok` cuts before its first occurrence. */
  lemma StrTokCutsAtFirst(s: string, c: char)
    requires s != "" && s[0] != c
    ensures c in s ==> StrTokOrEmpty(s, c) == s[..StrPos(s, c).value]
    ensures c !in s ==> StrTokOrEmpty(s, c) == s
  {
  }

  /** `explode($sep, $s)`: the pieces between separators, always at least one. */
  function Explode<T(==)>(s: seq<T>, sep: T): (r: seq<seq<T>>)
    ensures |r| >= 1
    ensures forall k :: 0 <= k < |r| ==> sep !in r[k]
    decreases |s|
  {
    match StrPos(s, sep)
    case None => [s]
    case Some(i) => [s[..i]] + Explode(s[i + 1..], sep)
  }

  /** `implode($sep, $pieces)`. */
  function Implode<T>(pieces: seq<seq<T>>, sep: T): seq<T> {
    if |pieces| == 0 then []
    else if |pieces| == 1 then pieces[0]
    else pieces[0] + [sep] + Implode(pieces[1..], sep)
  }

  /** Joining the pieces of `explode` with the separator gives back the input. */
  lemma {:induction false} ImplodeExplode<T>(s: seq<T>, sep: T)
    ensures Implode(Explode(s, sep), sep) == s
    decreases |s|
  {
    match StrPos(s, sep)
    case None =>
    case Some(i) =>
      var rest := Explode(s[i + 1..], sep);
      var pieces := [s[..i]] + rest;
      assert Explode(s, sep) == pieces;
      assert pieces[1..] == rest;
      assert Implode(pieces, sep) == s[..i] + [sep] + Implode(rest, sep);
      ImplodeExplode(s[i + 1..], sep);
      assert s == s[..i] + [sep] + s[i + 1..];
  }

  /** Splitting a join of separator-free pieces gives back the pieces. */
  lemma {:induction false} ExplodeImplode<T>(pieces: seq<seq<T>>, sep: T)
    requires |pieces| >= 1
    requires forall k :: 0 <= k < |pieces| ==> sep !in pieces[k]
    ensures Explode(Implode(pieces, sep), sep) == pieces
  {
    if |pieces| > 1 {
      var p0, rest := pieces[0], pieces[1..];
      var joined := Implode(rest, sep);
      assert Implode(pieces, sep) == p0 + [sep] + joined;
      assert forall k :: 0 <= k < |rest| ==> sep !in rest[k] by {
        forall k | 0 <= k < |rest| ensures sep !in rest[k] {
          assert rest[k] == pieces[k + 1];
        }
      }
      ExplodeImplode(rest, sep);
      assert Explode(joined, sep) == rest;
      ExplodeNoSeparator(p0, sep);
      ExplodeJoin(p0, joined, sep);
      assert Explode(p0 + [sep] + joined, sep) == [p0] + rest;
      HeadRest(pieces);
    } else {
      ExplodeNoSeparator(pieces[0], sep);
    }
  }

  /** Text without the separator explodes to itself alone. */
  lemma ExplodeNoSeparator<T>(s: seq<T>, sep: T)
    requires sep !in s
    ensures Explode(s, sep) == [s]
  {
  }

  /** Exploding across one separator splits into the pieces of either part. */
  lemma {:induction false} ExplodeJoin<T>(a: seq<T>, b: seq<T>, sep: T)
    ensures Explode(a + [sep] + b, sep) == Explode(a, sep) + Explode(b, sep)
    decreases |a|
  {
    match StrPos(a, sep)
    case None =>
      ExplodeJoinAtFirst(a, b, sep);
    case Some(i) =>
      var rest := a[i + 1..];
      ExplodeJoin(rest, b, sep);
      ExplodeJoinBeforeFirst(a, b, sep, i);
      ExplodeAt(a, sep, i);
      ConsAppend(a[..i], Explode(rest, sep), Explode(b, sep));
  }

  lemma HeadRest<U>(s: seq<U>)
    requires |s| >= 1
    ensures s == [s[0]] + s[1..]
  {
  }

  lemma ConsAppend<U>(x: U, p: seq<U>, q: seq<U>)
    ensures [x] + (p + q) == ([x] + p) + q
  {
  }

  /** One step of `explode`: the piece before the first separator, then the rest. */
  lemma ExplodeAt<T>(s: seq<T>, sep: T, i: nat)
    requires StrPos(s, sep) == Some(i)
    ensures Explode(s, sep) == [s[..i]] + Explode(s[i + 1..], sep)
  {
  }

  /** The added separator is the first one when `a` has none. */
  lemma ExplodeJoinAtFirst<T>(a: seq<T>, b: seq<T>, sep: T)
    requires sep !in a
    ensures Explode(a + [sep] + b, sep) == [a] + Explode(b, sep)
  {
    var s, t := a + [sep] + b, [sep] + b;
    assert s == a + t;
    StrPosAfterPrefix(a, t, sep);
    ExplodeAt(s, sep, |a|);
    assert s[..|a|] == a && s[|a| + 1..] == b;
  }

  /** Otherwise the first piece is cut from `a` alone. */
  lemma ExplodeJoinBeforeFirst<T>(a: seq<T>, b: seq<T>, sep: T, i: nat)
    requires StrPos(a, sep) == Some(i)
    ensures Explode(a + [sep] + b, sep) == [a[..i]] + Explode(a[i + 1..] + [sep] + b, sep)
  {
    var s, t := a + [sep] + b, [sep] + b;
    assert s == a + t;
    StrPosInPrefix(a, t, sep);
    ExplodeAt(s, sep, i);
    assert s[..i] == a[..i];
    assert s[i + 1..] == a[i + 1..] + [sep] + b;
  }

  /** An occurrence in `a` is found before anything appended. */
  lemma {:induction false} StrPosInPrefix<T>(a: seq<T>, b: seq<T>, x: T)
    requires x in a
    ensures StrPos(a + b, x) == StrPos(a, x)
  {
    if a[0] != x {
      assert (a + b)[1..] == a[1..] + b;
      StrPosInPrefix(a[1..], b, x);
    }
  }

  /** With no occurrence in `a`, the search continues into what follows. */
  lemma {:induction false} StrPosAfterPrefix<T>(a: seq<T>, b: seq<T>, x: T)
    requires x !in a && x in b
    ensures StrPos(a + b, x) == Some(|a| + StrPos(b, x).value)
  {
    if a == [] {
      assert a + b == b;
    } else {
      assert (a + b)[1..] == a[1..] + b;
      StrPosAfterPrefix(a[1..], b, x);
    }
  }

  /**
   * `str_replace($from, $to, $s)` for a non-empty needle: occurrences are
   * found left to right and replaced without overlapping.
   */
  function StrReplace(s: string, from: string, to: string): (r: string)
    requires from != ""
    ensures |to| == |from| ==> |r| == |s|
    decreases |s|
  {
    if |s| < |from| then s
    else if s[..|from|] == from then to + StrReplace(s[|from|..], from, to)
    else [s[0]] + StrReplace(s[1..], from, to)
  }

  /** The needle occurs in `s` starting at index `i`. */
  predicate OccursAt(s: string, from: string, i: int) {
    0 <= i && i + |from| <= |s| && s[i..i + |from|] == from
  }

  /** Text in which the needle never occurs is returned unchanged. */
  lemma {:induction false} StrReplaceWithoutOccurrence(s: string, from: string, to: string)
    requires from != ""
    requires forall i :: !OccursAt(s, from, i)
    ensures StrReplace(s, from, to) == s
    decreases |s|
  {
    if |s| >= |from| {
      assert !OccursAt(s, from, 0);
      forall i ensures !OccursAt(s[1..], from, i) {
        if 0 <= i && i + |from| <= |s[1..]| {
          assert s[1..][i..i + |from|] == s[i + 1..i + 1 + |from|];
          assert !OccursAt(s, from, i + 1);
        }
      }
      StrReplaceWithoutOccurrence(s[1..], from, to);
      assert [s[0]] + s[1..] == s;
    }
  }

  /**
   * The first occurrence of the needle is replaced, and the search goes on
   * right after it; with StrReplaceWithoutOccurrence this fixes the result
   * on every text.
   */
  lemma {:induction false} StrReplaceAtFirst(s: string, from: string, to: string, i: nat)
    requires from != "" && OccursAt(s, from, i)
    requires forall j :: 0 <= j < i ==> !OccursAt(s, from, j)
    ensures StrReplace(s, from, to) == s[..i] + to + StrReplace(s[i + |from|..], from, to)
    decreases i
  {
    if i == 0 {
      StrReplaceHere(s, from, to);
      assert s[..0] + to == to;
    } else {
      var t := s[1..];
      OccursAtShift(s, from, i - 1);
      forall j | 0 <= j < i - 1 ensures !OccursAt(t, from, j) {
        OccursAtShift(s, from, j);
      }
      StrReplaceAtFirst(t, from, to, i - 1);
      StrReplaceSkip(s, from, to);
      var u := s[i + |from|..];
      var rest := StrReplace(u, from, to);
      SkipOne(s, i, |from|, to, rest);
      assert t[i - 1 + |from|..] == u;
      assert StrReplace(t, from, to) == t[..i - 1] + to + rest;
      assert StrReplace(s, from, to) == [s[0]] + (t[..i - 1] + to + rest);
    }
  }

  /** An occurrence at the start is replaced and the search resumes after it. */
  lemma StrReplaceHere(s: string, from: string, to: string)
    requires from != "" && OccursAt(s, from, 0)
    ensures StrReplace(s, from, to) == to + StrReplace(s[|from|..], from, to)
  {
    assert s[..|from|] == s[0..|from|];
  }

  /** A first character that starts no occurrence is kept. */
  lemma StrReplaceSkip(s: string, from: string, to: string)
    requires from != "" && |s| >= |from| && !OccursAt(s, from, 0)
    ensures StrReplace(s, from, to) == [s[0]] + StrReplace(s[1..], from, to)
  {
    assert s[..|from|] == s[0..|from|];
  }

  lemma OccursAtShift(s: string, from: string, j: nat)
    requires |s| >= 1
    ensures OccursAt(s[1..], from, j) <==> OccursAt(s, from, j + 1)
  {
    if j + |from| <= |s[1..]| {
      assert s[1..][j..j + |from|] == s[j + 1..j + 1 + |from|];
    }
  }

  lemma SkipOne(s: string, i: nat, n: nat, to: string, rest: string)
    requires 1 <= i && i + n <= |s|
    ensures [s[0]] + (s[1..][..i - 1] + to + rest) == s[..i] + to + rest
    ensures s[1..][i - 1 + n..] == s[i + n..]
  {
    assert s[..i] == [s[0]] + s[1..][..i - 1];
  }

  /** Replacing a one-character needle by text without it leaves no such character. */
  lemma {:induction false} StrReplaceRemovesChar(s: string, c: char, to: string)
    requires c !in to
    ensures c !in StrReplace(s, [c], to)
    decreases |s|
  {
    if |s| >= 1 {
      StrReplaceRemovesChar(s[1..], c, to);
      if s[..1] != [c] {
        assert s[0] != c;
      }
    }
  }

  /** Deleting occurrences never introduces a character the input did not have. */
  lemma {:induction false} StrReplaceDeleteKeepsChars(s: string, from: string, x: char)
    requires from != ""
    requires x !in s
    ensures x !in StrReplace(s, from, "")
    decreases |s|
  {
    if |s| >= |from| {
      if s[..|from|] == from {
        assert forall i :: 0 <= i < |s| - |from| ==> s[|from|..][i] == s[i + |from|];
        StrReplaceDeleteKeepsChars(s[|from|..], from, x);
      } else {
        assert forall i :: 0 <= i < |s| - 1 ==> s[1..][i] == s[i + 1];
        StrReplaceDeleteKeepsChars(s[1..], from, x);
      }
    }
  }

  /** With a one-character needle no match straddles a join. */
  lemma {:induction false} StrReplaceCharAppend(a: string, b: string, c: char, to: string)
    ensures StrReplace(a + b, [c], to) == StrReplace(a, [c], to) + StrReplace(b, [c], to)
    decreases |a|
  {
    if |a| >= 1 {
      var t := a + b;
      assert t[..1] == a[..1];
      assert t[1..] == a[1..] + b;
      StrReplaceCharAppend(a[1..], b, c, to);
    } else {
      assert a + b == b;
    }
  }

  /** Replacing one character by another works position by position. */
  lemma {:induction false} StrReplaceCharPointwise(s: string, c: char, d: char)
    ensures var r := StrReplace(s, [c], [d]);
      |r| == |s| && forall i :: 0 <= i < |s| ==> r[i] == (if s[i] == c then d else s[i])
    decreases |s|
  {
    if |s| >= 1 {
      StrReplaceCharPointwise(s[1..], c, d);
      assert s[..1] == [s[0]];
    }
  }

  /** Deleting a needle that ends the text, whose first character occurs nowhere before it. */
  lemma {:induction false} StrReplaceDeletesSuffix(q: string, from: string)
    requires from != "" && from[0] !in q
    ensures StrReplace(q + from, from, "") == q
    decreases |q|
  {
    var t := q + from;
    if |q| == 0 {
      assert t == from;
      assert t[..|from|] == from && t[|from|..] == [];
    } else {
      assert t[0] == q[0] != from[0];
      assert t[..|from|] != from;
      assert t[1..] == q[1..] + from;
      StrReplaceDeletesSuffix(q[1..], from);
      assert q == [q[0]] + q[1..];
    }
  }

  function DigitChar(d: nat): char
    requires d < 10
  {
    ('0' as int + d) as char
  }

  /** PHP's conversion of a non-negative integer to its decimal string. */
  function NatToString(n: nat): (r: string)
    ensures r != ""
    ensures forall i :: 0 <= i < |r| ==> '0' <= r[i] <= '9'
  {
    if n < 10 then [DigitChar(n)] else NatToString(n / 10) + [DigitChar(n % 10)]
  }

  /** The value of a string of decimal digits. */
  function DecimalValue(s: string): nat
    requires forall i :: 0 <= i < |s| ==> '0' <= s[i] <= '9'
  {
    if s == [] then 0
    else DecimalValue(s[..|s| - 1]) * 10 + (s[|s| - 1] as int - '0' as int)
  }

  /** Reading back the decimal string of `n` gives `n`. */
  lemma {:induction false} DecimalRoundTrip(n: nat)
    ensures DecimalValue(NatToString(n)) == n
  {
    if n >= 10 {
      DecimalRoundTrip(n / 10);
      var s := NatToString(n);
      assert s[..|s| - 1] == NatToString(n / 10);
    }
  }

  /** Distinct numbers have distinct decimal strings. */
  lemma NatToStringInjective(m: nat, n: nat)
    requires NatToString(m) == NatToString(n)
    ensures m == n
  {
    DecimalRoundTrip(m);
    DecimalRoundTrip(n);
  }
}
