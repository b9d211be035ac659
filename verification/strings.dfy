/**
 * The handful of Python `str` operations the scraper relies on, written out with the
 * semantics CPython gives them: `strip()`, `in`, `find`, `split(sep)`, `sep.join`,
 * `replace`, `lower()`, `isdigit()` and `int()`.
 */
module Strings {
  import opened Wrappers

  type String = seq<char>

  function Min(a: int, b: int): int {
    if a <= b then a else b
  }

  /** `str.isspace()`: the characters a bare `strip()` removes. */
  predicate IsSpace(c: char) {
    || c == ' '
    || ('\t' <= c <= '\r')
    || ('\U{1C}' <= c <= '\U{1F}')
    || c == '\U{85}' || c == '\U{A0}' || c == '\U{1680}'
    || ('\U{2000}' <= c <= '\U{200A}')
    || c == '\U{2028}' || c == '\U{2029}' || c == '\U{202F}' || c == '\U{205F}' || c == '\U{3000}'
  }

  /** `s.lstrip()`: drops the leading white space and nothing else. */
  function TrimStart(s: String): (r: String)
    ensures |r| <= |s| && r == s[|s| - |r|..]
    ensures forall i :: 0 <= i < |s| - |r| ==> IsSpace(s[i])
    ensures r == [] || !IsSpace(r[0])
  {
    if |s| > 0 && IsSpace(s[0]) then TrimStart(s[1..]) else s
  }

  /** `s.rstrip()`: drops the trailing white space and nothing else. */
  function TrimEnd(s: String): (r: String)
    ensures |r| <= |s| && r == s[..|r|]
    ensures forall i :: |r| <= i < |s| ==> IsSpace(s[i])
    ensures r == [] || !IsSpace(r[|r| - 1])
  {
    if |s| > 0 && IsSpace(s[|s| - 1]) then TrimEnd(s[..|s| - 1]) else s
  }

  /** `s.strip()`. */
  function Strip(s: String): (r: String)
    ensures |r| <= |s|
    ensures r == [] || (!IsSpace(r[0]) && !IsSpace(r[|r| - 1]))
  {
    TrimEnd(TrimStart(s))
  }

  /** Neither starts nor ends with white space. */
  predicate Unpadded(s: String) {
    s == [] || (!IsSpace(s[0]) && !IsSpace(s[|s| - 1]))
  }

  /** `strip()` leaves an unpadded string alone. */
  lemma StripUnpadded(s: String)
    requires Unpadded(s)
    ensures Strip(s) == s
  {
  }

  /** Nothing but white space. */
  predicate AllSpace(p: String) {
    forall i :: 0 <= i < |p| ==> IsSpace(p[i])
  }

  /** `strip()` removes exactly the white space around an unpadded, non-empty middle. */
  lemma StripAround(p: String, m: String, q: String)
    requires AllSpace(p) && AllSpace(q)
    requires m != [] && Unpadded(m)
    ensures Strip(p + m + q) == m
  {
    assert p + m + q == p + (m + q);
    TrimStartAround(p, m + q);
    TrimEndAround(m, q);
  }

  lemma TrimStartAround(p: String, t: String)
    requires AllSpace(p) && t != [] && !IsSpace(t[0])
    ensures TrimStart(p + t) == t
  {
    var s := p + t;
    var r := TrimStart(s);
    assert s[|p|] == t[0];
    assert forall i :: 0 <= i < |p| ==> IsSpace(s[i]);
    assert |r| == |t|;
    assert r == s[|p|..] == t;
  }

  lemma TrimEndAround(t: String, q: String)
    requires AllSpace(q) && t != [] && !IsSpace(t[|t| - 1])
    ensures TrimEnd(t + q) == t
  {
    var s := t + q;
    var r := TrimEnd(s);
    assert s[|t| - 1] == t[|t| - 1];
    assert forall i :: |t| <= i < |s| ==> IsSpace(s[i]);
    assert |r| == |t|;
    assert r == s[..|t|] == t;
  }


  /** `sub` occurs in `s` at index `i`. */
  predicate OccursAt(s: String, sub: String, i: int) {
    0 <= i && i + |sub| <= |s| && s[i..i + |sub|] == sub
  }

  /** `s.find(sub, k)`: the first occurrence of `sub` at or after `k`. */
  function FindFrom(s: String, sub: String, k: nat): (r: Option<nat>)
    requires k <= |s|
    ensures r.Some? ==> k <= r.value && OccursAt(s, sub, r.value)
    ensures forall j :: k <= j && (r.None? || j < r.value) ==> !OccursAt(s, sub, j)
    decreases |s| - k
  {
    if OccursAt(s, sub, k) then Some(k)
    else if k + |sub| >= |s| then None
    else FindFrom(s, sub, k + 1)
  }

  /** `s.find(sub)`, with `None` for Python's -1. */
  function IndexOf(s: String, sub: String): (r: Option<nat>)
    ensures r.Some? ==> OccursAt(s, sub, r.value)
    ensures forall j :: (r.None? || j < r.value) ==> !OccursAt(s, sub, j)
  {
    FindFrom(s, sub, 0)
  }

  /** `sub in s`. */
  predicate Contains(s: String, sub: String) {
    IndexOf(s, sub).Some?
  }

  /** For a one-character needle, an occurrence is just an equal element. */
  lemma OccursAtChar(s: String, c: char, i: int)
    ensures OccursAt(s, [c], i) <==> 0 <= i < |s| && s[i] == c
  {
    if 0 <= i < |s| {
      assert s[i..i + 1] == [s[i]];
    }
  }

  /** `[c] in s` is element membership. */
  lemma ContainsChar(s: String, c: char)
    ensures Contains(s, [c]) <==> c in s
  {
    if c in s {
      var i :| 0 <= i < |s| && s[i] == c;
      OccursAtChar(s, c, i);
    }
    if Contains(s, [c]) {
      OccursAtChar(s, c, IndexOf(s, [c]).value);
    }
  }

  /** `sep.join(parts)`. */
  function Join(parts: seq<String>, sep: String): String {
    if |parts| == 0 then []
    else if |parts| == 1 then parts[0]
    else parts[0] + sep + Join(parts[1..], sep)
  }

  /** `s.split(sep)` for a non-empty separator: cut at every occurrence, scanning left to right. */
  function Split(s: String, sep: String): (parts: seq<String>)
    requires |sep| > 0
    ensures |parts| >= 1
    ensures Join(parts, sep) == s
    decreases |s|
  {
    match IndexOf(s, sep)
    case None => [s]
    case Some(i) =>
      var rest := Split(s[i + |sep|..], sep);
      assert s == s[..i] + sep + s[i + |sep|..];
      [s[..i]] + rest
  }

  /** The text before the first occurrence holds no occurrence. */
  lemma PrefixBeforeFirstOccurrence(s: String, sub: String, i: nat)
    requires |sub| > 0 && i <= |s|
    requires forall j :: j < i ==> !OccursAt(s, sub, j)
    ensures !Contains(s[..i], sub)
  {
    if Contains(s[..i], sub) {
      var j := IndexOf(s[..i], sub).value;
      assert OccursAt(s[..i], sub, j);
      assert s[..i][j..j + |sub|] == s[j..j + |sub|];
      assert OccursAt(s, sub, j);
    }
  }

  /** No piece produced by `split(sep)` contains `sep`. */
  lemma {:induction false} SplitPiecesFree(s: String, sep: String)
    requires |sep| > 0
    ensures forall k :: 0 <= k < |Split(s, sep)| ==> !Contains(Split(s, sep)[k], sep)
    decreases |s|
  {
    match IndexOf(s, sep)
    case None =>
    case Some(i) =>
      PrefixBeforeFirstOccurrence(s, sep, i);
      SplitPiecesFree(s[i + |sep|..], sep);
  }

  /** Every character of a piece comes from the split string. */
  lemma {:induction false} SplitPiecesFromSource(s: String, sep: String)
    requires |sep| > 0
    ensures forall k, c :: 0 <= k < |Split(s, sep)| && c in Split(s, sep)[k] ==> c in s
    decreases |s|
  {
    match IndexOf(s, sep)
    case None =>
    case Some(i) =>
      var rest := s[i + |sep|..];
      SplitPiecesFromSource(rest, sep);
      assert Split(s, sep) == [s[..i]] + Split(rest, sep);
      forall k, c | 0 <= k < |Split(s, sep)| && c in Split(s, sep)[k]
        ensures c in s
      {
        if k == 0 {
          assert c in s[..i];
        } else {
          assert c in Split(rest, sep)[k - 1];
          assert c in rest;
        }
      }
  }

  /** Splitting after a head in which the separator's first character does not occur
      peels the head off. */
  lemma SplitAfterHead(head: String, sep: String, tail: String)
    requires |sep| > 0 && sep[0] !in head
    ensures Split(head + sep + tail, sep) == [head] + Split(tail, sep)
  {
    var s := head + sep + tail;
    assert s[|head|..|head| + |sep|] == sep;
    assert OccursAt(s, sep, |head|);
    forall j | j < |head|
      ensures !OccursAt(s, sep, j)
    {
      if 0 <= j && j + |sep| <= |s| {
        assert s[j..j + |sep|][0] == head[j];
      }
    }
    assert IndexOf(s, sep) == Some(|head|);
    assert s[..|head|] == head;
    assert s[|head| + |sep|..] == tail;
  }

  /** A character is first found where it first appears. */
  lemma IndexOfChar(s: String, c: char, i: nat)
    requires i < |s| && s[i] == c && c !in s[..i]
    ensures IndexOf(s, [c]) == Some(i)
  {
    OccursAtChar(s, c, i);
    var j := IndexOf(s, [c]).value;
    OccursAtChar(s, c, j);
  }

  /** A needle whose first character is absent from the text does not occur in it. */
  lemma AbsentFirstChar(s: String, sub: String)
    requires |sub| > 0 && sub[0] !in s
    ensures !Contains(s, sub)
  {
  }

  /** A string without the separator splits into itself alone. */
  lemma SplitWithout(s: String, sep: String)
    requires |sep| > 0
    requires !Contains(s, sep)
    ensures Split(s, sep) == [s]
  {
  }

  /** With a one-character separator, `split` undoes `join` when no piece holds the separator. */
  lemma {:induction false} SplitJoin(parts: seq<String>, c: char)
    requires |parts| >= 1
    requires forall k :: 0 <= k < |parts| ==> c !in parts[k]
    ensures Split(Join(parts, [c]), [c]) == parts
    decreases |parts|
  {
    if |parts| == 1 {
      ContainsChar(parts[0], c);
      SplitWithout(parts[0], [c]);
    } else {
      SplitJoin(parts[1..], c);
      SplitAfterHead(parts[0], [c], Join(parts[1..], [c]));
    }
  }

  /** `split` undoes `join` when no piece holds the separator's first character. */
  lemma {:induction false} SplitJoinBy(parts: seq<String>, sep: String)
    requires |parts| >= 1 && |sep| > 0
    requires forall k :: 0 <= k < |parts| ==> sep[0] !in parts[k]
    ensures Split(Join(parts, sep), sep) == parts
    decreases |parts|
  {
    if |parts| == 1 {
      AbsentFirstChar(parts[0], sep);
      SplitWithout(parts[0], sep);
    } else {
      SplitJoinBy(parts[1..], sep);
      SplitAfterHead(parts[0], sep, Join(parts[1..], sep));
    }
  }

  /** `s.replace(pat, rep)`: replace every occurrence found scanning left to right. */
  function Replace(s: String, pat: String, rep: String): String
    requires |pat| > 0
    decreases |s|
  {
    match IndexOf(s, pat)
    case None => s
    case Some(i) => s[..i] + rep + Replace(s[i + |pat|..], pat, rep)
  }

  /** The first occurrence is replaced, and replacing goes on after it. */
  lemma ReplaceFirst(s: String, pat: String, rep: String, i: nat, head: String, tail: String)
    requires |pat| > 0 && IndexOf(s, pat) == Some(i) && i + |pat| <= |s|
    requires head == s[..i] && tail == s[i + |pat|..]
    ensures Replace(s, pat, rep) == head + rep + Replace(tail, pat, rep)
  {
  }

  /** `s.replace(pat, rep) == rep.join(s.split(pat))`. */
  lemma {:induction false} ReplaceIsSplitJoin(s: String, pat: String, rep: String)
    requires |pat| > 0
    ensures Replace(s, pat, rep) == Join(Split(s, pat), rep)
    decreases |s|
  {
    match IndexOf(s, pat)
    case None =>
    case Some(i) =>
      ReplaceIsSplitJoin(s[i + |pat|..], pat, rep);
  }

  /** A character found neither in the text nor in the replacement is not in the result. */
  lemma ReplaceKeepsAbsent(s: String, pat: String, rep: String, c: char)
    requires |pat| > 0
    requires c !in s && c !in rep
    ensures c !in Replace(s, pat, rep)
  {
    ReplaceIsSplitJoin(s, pat, rep);
    SplitPiecesFromSource(s, pat);
    JoinKeepsAbsent(Split(s, pat), rep, c);
  }

  lemma {:induction false} JoinKeepsAbsent(parts: seq<String>, sep: String, c: char)
    requires forall k :: 0 <= k < |parts| ==> c !in parts[k]
    requires c !in sep
    ensures c !in Join(parts, sep)
    decreases |parts|
  {
    if |parts| > 1 {
      assert forall k :: 0 <= k < |parts| - 1 ==> parts[1..][k] == parts[k + 1];
      JoinKeepsAbsent(parts[1..], sep, c);
    }
  }

  /** `s` with every `c` deleted, element by element. */
  function RemoveAll(s: String, c: char): (r: String)
    ensures c !in r
    ensures |r| <= |s|
  {
    if s == [] then []
    else (if s[0] == c then [] else [s[0]]) + RemoveAll(s[1..], c)
  }

  lemma {:induction false} RemoveAllAppend(a: String, b: String, c: char)
    ensures RemoveAll(a + b, c) == RemoveAll(a, c) + RemoveAll(b, c)
    decreases |a|
  {
    if a != [] {
      var h := if a[0] == c then [] else [a[0]];
      assert (a + b)[0] == a[0];
      assert (a + b)[1..] == a[1..] + b;
      RemoveAllAppend(a[1..], b, c);
      calc {
        RemoveAll(a + b, c);
        h + RemoveAll(a[1..] + b, c);
        h + (RemoveAll(a[1..], c) + RemoveAll(b, c));
        (h + RemoveAll(a[1..], c)) + RemoveAll(b, c);
        RemoveAll(a, c) + RemoveAll(b, c);
      }
    } else {
      assert a + b == b;
    }
  }

  lemma {:induction false} RemoveAllAbsent(s: String, c: char)
    requires c !in s
    ensures RemoveAll(s, c) == s
    decreases |s|
  {
    if s != [] {
      RemoveAllAbsent(s[1..], c);
    }
  }

  /** `s.replace(c, '')` deletes exactly the occurrences of `c` and keeps the rest in order. */
  lemma {:induction false} ReplaceCharIsRemoval(s: String, c: char)
    ensures Replace(s, [c], []) == RemoveAll(s, c)
    decreases |s|
  {
    match IndexOf(s, [c])
    case None =>
      ContainsChar(s, c);
      RemoveAllAbsent(s, c);
    case Some(i) =>
      OccursAtChar(s, c, i);
      forall j | 0 <= j < i
        ensures s[j] != c
      {
        OccursAtChar(s, c, j);
      }
      assert c !in s[..i];
      RemoveAllAbsent(s[..i], c);
      assert s == s[..i] + [c] + s[i + 1..];
      RemoveAllAppend(s[..i] + [c], s[i + 1..], c);
      RemoveAllAppend(s[..i], [c], c);
      ReplaceCharIsRemoval(s[i + 1..], c);
  }

  /** `str.lower()` on one character, as far as comparisons with ASCII words can tell:
      every character whose lower-case form is ASCII is mapped to it (A-Z, and the
      KELVIN SIGN, which lowers to 'k'); every other character is left alone. */
  function LowerChar(c: char): char {
    if 'A' <= c <= 'Z' then (c as int + 32) as char
    else if c == '\U{212A}' then 'k'
    else c
  }

  function UpperChar(c: char): char {
    if 'a' <= c <= 'z' then (c as int - 32) as char else c
  }

  function Lower(s: String): (r: String)
    ensures |r| == |s|
    ensures forall i :: 0 <= i < |s| ==> r[i] == LowerChar(s[i])
  {
    if s == [] then [] else [LowerChar(s[0])] + Lower(s[1..])
  }

  function Upper(s: String): (r: String)
    ensures |r| == |s|
    ensures forall i :: 0 <= i < |s| ==> r[i] == UpperChar(s[i])
  {
    if s == [] then [] else [UpperChar(s[0])] + Upper(s[1..])
  }

  /** Lower-casing forgets any earlier upper-casing. */
  lemma LowerUpper(s: String)
    ensures Lower(Upper(s)) == Lower(s)
  {
    assert forall i :: 0 <= i < |s| ==> LowerChar(UpperChar(s[i])) == LowerChar(s[i]);
  }

  /** `'*' * n` and friends. */
  function Repeat(c: char, n: nat): (r: String)
    ensures |r| == n && forall i :: 0 <= i < n ==> r[i] == c
  {
    seq(n, _ => c)
  }

  predicate IsDigit(c: char) {
    '0' <= c <= '9'
  }

  /** `str.isdigit()` over ASCII digits: non-empty and all digits. */
  predicate IsDigits(s: String) {
    |s| > 0 && forall i :: 0 <= i < |s| ==> IsDigit(s[i])
  }

  function DigitValue(c: char): nat
    requires IsDigit(c)
  {
    c as int - '0' as int
  }

  function DigitChar(d: nat): (c: char)
    requires d < 10
    ensures IsDigit(c) && DigitValue(c) == d
  {
    ('0' as int + d) as char
  }

  /** The number a run of decimal digits denotes (0 for the empty run). */
  function DigitsValue(s: String): nat
    requires forall i :: 0 <= i < |s| ==> IsDigit(s[i])
  {
    if s == [] then 0 else DigitsValue(s[..|s| - 1]) * 10 + DigitValue(s[|s| - 1])
  }

  /** `str(n)` for a natural number. */
  function NatToString(n: nat): (r: String)
    ensures IsDigits(r)
    ensures DigitsValue(r) == n
  {
    if n < 10 then [DigitChar(n)]
    else
      var r := NatToString(n / 10) + [DigitChar(n % 10)];
      assert r[..|r| - 1] == NatToString(n / 10);
      r
  }

  /** `str(i)` for any integer. */
  function IntToString(i: int): String {
    if i < 0 then "-" + NatToString(-i) else NatToString(i)
  }

  /** The digit part `int()` accepts: digits, single underscores allowed between two digits. */
  predicate IsUnderscoredDigits(t: String) {
    && |t| > 0 && IsDigit(t[0]) && IsDigit(t[|t| - 1])
    && (forall i :: 0 <= i < |t| ==> IsDigit(t[i]) || t[i] == '_')
    && (forall i :: 0 <= i < |t| - 1 ==> t[i] == '_' ==> t[i + 1] != '_')
  }

  function DropUnderscores(t: String): (r: String)
    requires forall i :: 0 <= i < |t| ==> IsDigit(t[i]) || t[i] == '_'
    ensures forall i :: 0 <= i < |r| ==> IsDigit(r[i])
  {
    if t == [] then []
    else (if t[0] == '_' then [] else [t[0]]) + DropUnderscores(t[1..])
  }

  lemma {:induction false} DropUnderscoresOfDigits(t: String)
    requires forall i :: 0 <= i < |t| ==> IsDigit(t[i])
    ensures DropUnderscores(t) == t
    decreases |t|
  {
    if t != [] {
      DropUnderscoresOfDigits(t[1..]);
    }
  }

  function ParseUnsigned(t: String): Option<nat> {
    if IsUnderscoredDigits(t) then Some(DigitsValue(DropUnderscores(t))) else None
  }

  /** The characters `str.isspace()` accepts that `int()` does not skip: U+001C..U+001F.
      `int()` skips only the ASCII `\t`..`\r` and space, and the non-ASCII white space. */
  predicate IsInfoSeparator(c: char) {
    '\U{1C}' <= c <= '\U{1F}'
  }

  /** Some character of `s` is one `int()` neither skips nor reads. */
  predicate HasInfoSeparator(s: String) {
    exists i :: 0 <= i < |s| && IsInfoSeparator(s[i])
  }

  /** `int(s)` in base 10: surrounding white space, an optional sign, then digits
      (with single underscores between digits); anything else raises, here `None`.
      An information separator is neither white space, sign nor digit to `int()`, so one
      anywhere raises; without them the white space `int()` skips is what `strip()`
      removes. */
  function ParseInt(s: String): Option<int> {
    if HasInfoSeparator(s) then None
    else
      var t := Strip(s);
      if |t| > 0 && (t[0] == '+' || t[0] == '-') then
        match ParseUnsigned(t[1..])
        case None => None
        case Some(n) =>
          var m: int := n;
          var v: int := if t[0] == '-' then -m else m;
          Some(v)
      else ParseUnsigned(t)
  }

  /** With no information separator and no sign after stripping, `int()` reads the
      stripped text as an unsigned numeral. */
  lemma UnsignedRead(s: String, t: String)
    requires !HasInfoSeparator(s) && t == Strip(s)
    requires t == [] || (t[0] != '+' && t[0] != '-')
    ensures ParseInt(s) == ParseUnsigned(t)
  {
  }

  /** `strip()` removes a leading information separator, but `int()` raises on it: `" 5"`
      and `"\x1c5"` strip alike, yet only the first is an integer. */
  lemma SeparatorNotSkipped(c: char, t: String)
    requires IsInfoSeparator(c)
    ensures Strip([c] + t) == Strip(t) && ParseInt([c] + t).None?
  {
    var s := [c] + t;
    assert s[0] == c && s[1..] == t;
    assert TrimStart(s) == TrimStart(t);
    assert HasInfoSeparator(s) by { assert IsInfoSeparator(s[0]); }
  }

  lemma ParseUnsignedOfDigits(d: String)
    requires IsDigits(d)
    ensures ParseUnsigned(d) == Some(DigitsValue(d))
  {
    DropUnderscoresOfDigits(d);
  }

  /** `int(str(i)) == i`. */
  lemma ParseIntOfString(i: int)
    ensures ParseInt(IntToString(i)) == Some(i)
  {
    if i < 0 {
      var d := NatToString(-i);
      ParseUnsignedOfDigits(d);
      IntOfSignedDigits(d, -i);
    } else {
      IntOfDigits(NatToString(i));
    }
  }

  /** `int()` of a digit string is its value. */
  lemma IntOfDigits(d: String)
    requires IsDigits(d)
    ensures ParseInt(d) == Some(DigitsValue(d))
  {
    assert IsDigit(d[0]) && IsDigit(d[|d| - 1]);
    StripUnpadded(d);
    ParseUnsignedOfDigits(d);
  }

  /** `int()` of a minus sign and a digit string is the negated value. */
  lemma IntOfSignedDigits(d: String, n: nat)
    requires IsDigits(d) && ParseUnsigned(d) == Some(n)
    ensures ParseInt("-" + d) == Some(-(n as int))
  {
    MinusDigits(d);
    IntOfMinus("-" + d, n);
  }


  lemma MinusDigits(d: String)
    requires IsDigits(d)
    ensures var s := "-" + d; Unpadded(s) && s[0] == '-' && s[1..] == d
  {
    var s := "-" + d;
    assert s[|s| - 1] == d[|d| - 1] && IsDigit(d[|d| - 1]);
    assert s[1..] == d;
  }

  /** `int()` of an unpadded string that starts with a minus sign and goes on
      with the digits of `n`. */
  lemma IntOfMinus(s: String, n: nat)
    requires Unpadded(s) && |s| > 0 && s[0] == '-'
    requires ParseUnsigned(s[1..]) == Some(n)
    ensures ParseInt(s) == Some(-(n as int))
  {
    StripUnpadded(s);
  }


}
