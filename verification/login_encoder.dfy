/**
 * The login-field encoder of `tests/bj.py` (`Auth.encode`). The server replies
 * `<salt>#<lengths>`; the plaintext `username%%%password` is written out character by
 * character, and after each of its first 20 characters the next `lengths[i]` characters of
 * the salt are inserted (fewer once the salt runs out). From index 20 on, the rest of the
 * plaintext is appended verbatim.
 */
module LoginEncoder {
  import opened Wrappers
  import opened Strings

  /** How many plaintext characters get salt after them. */
  const SaltedPrefix: nat := 20

  datatype EncodeError =
    | BadReply           // the reply does not split on `#` into exactly two parts
    | BadLength(i: nat)  // `int(sxh[i:i+1])` raises: no digit at index i

  /** `f"{username}%%%{password}"`. */
  function Plaintext(username: String, password: String): String {
    username + "%%%" + password
  }

  /** Every index that gets salt has a digit in the length string. */
  predicate LengthsCover(code: String, i: nat, sxh: String) {
    forall j :: i <= j < Min(|code|, SaltedPrefix) ==> DigitAt(sxh, j)
  }

  /** `int(sxh[j:j+1])` succeeds. */
  predicate DigitAt(sxh: String, j: int) {
    0 <= j < |sxh| && IsDigit(sxh[j])
  }

  lemma CoverStep(code: String, i: nat, sxh: String)
    requires i < |code| && i < SaltedPrefix && DigitAt(sxh, i)
    ensures LengthsCover(code, i, sxh) <==> LengthsCover(code, i + 1, sxh)
  {
  }

  /** The `while` loop from index `i`, with `salt` the salt not yet consumed. */
  function EncodeFrom(code: String, i: nat, salt: String, sxh: String): (r: Result<String, EncodeError>)
    requires i <= |code|
    ensures r.Ok? <==> LengthsCover(code, i, sxh)
    ensures r.Err? ==> r.error.BadLength?
    ensures r.Ok? ==> |code| - i <= |r.value| <= |code| - i + |salt|
    decreases |code| - i
  {
    if i == |code| then
      assert Min(|code|, SaltedPrefix) <= i;
      Ok([])
    else if i < SaltedPrefix then
      if !DigitAt(sxh, i) then
        assert i < Min(|code|, SaltedPrefix);
        Err(BadLength(i))
      else
        CoverStep(code, i, sxh);
        var take := Min(DigitValue(sxh[i]), |salt|);
        match EncodeFrom(code, i + 1, salt[take..], sxh)
        case Err(e) => Err(e)
        case Ok(rest) => Ok([code[i]] + salt[..take] + rest)
    else Ok(code[i..])
  }

  /** From index 20 on the plaintext is copied verbatim: an encoding ends with the
      plaintext's characters from index 20. */
  lemma {:induction false} EncodeKeepsTail(code: String, i: nat, salt: String, sxh: String)
    requires i <= SaltedPrefix < |code| && EncodeFrom(code, i, salt, sxh).Ok?
    ensures EndsWith(EncodeFrom(code, i, salt, sxh).value, code[SaltedPrefix..])
    decreases SaltedPrefix - i
  {
    if i < SaltedPrefix {
      var take := Min(DigitValue(sxh[i]), |salt|);
      var left := salt[take..];
      var rest := EncodeFrom(code, i + 1, left, sxh).value;
      var front := [code[i]] + salt[..take];
      assert EncodeFrom(code, i, salt, sxh).value == front + rest;
      EncodeKeepsTail(code, i + 1, left, sxh);
      EndsWithAppend(front, rest, code[SaltedPrefix..]);
    }
  }

  /** `s.endswith(t)`. */
  predicate EndsWith(s: String, t: String) {
    |t| <= |s| && s[|s| - |t|..] == t
  }

  lemma EndsWithAppend(p: String, s: String, t: String)
    requires EndsWith(s, t)
    ensures EndsWith(p + s, t)
  {
    assert (p + s)[|p + s| - |t|..] == s[|s| - |t|..];
  }

  /** `Auth.encode` given the server's reply. */
  function Encode(username: String, password: String, reply: String): (r: Result<String, EncodeError>)
    ensures r.Err? && r.error == BadReply <==> |Split(reply, "#")| != 2
    ensures |Split(reply, "#")| == 2 ==>
      (r.Ok? <==> LengthsCover(Plaintext(username, password), 0, Split(reply, "#")[1]))
    ensures r.Ok? ==>
      var code := Plaintext(username, password);
      |code| <= |r.value| <= |code| + |Split(reply, "#")[0]|
  {
    var parts := Split(reply, "#");
    if |parts| != 2 then Err(BadReply)
    else EncodeFrom(Plaintext(username, password), 0, parts[0], parts[1])
  }

  /** The inverse: walks an encoded text with the same lengths, keeping the plaintext
      characters and collecting the salt pieces, given how much salt there was. */
  function DecodeFrom(e: String, i: nat, saltLeft: nat, sxh: String): (String, String)
    decreases |e|
  {
    if e == [] then ([], [])
    else if i < SaltedPrefix && DigitAt(sxh, i) then
      var take := Min(DigitValue(sxh[i]), saltLeft);
      if 1 + take > |e| then ([e[0]], e[1..])
      else
        var (code, salt) := DecodeFrom(e[1 + take..], i + 1, saltLeft - take, sxh);
        ([e[0]] + code, e[1..1 + take] + salt)
    else (e, [])
  }

  /** Removing the inserted salt recovers the plaintext, and the removed pieces are exactly
      the salt consumed, front to back: a prefix of the salt. */
  lemma {:induction false} DecodeEncodeFrom(code: String, i: nat, salt: String, sxh: String)
    requires i <= |code| && EncodeFrom(code, i, salt, sxh).Ok?
    ensures var e := EncodeFrom(code, i, salt, sxh).value;
      var d := DecodeFrom(e, i, |salt|, sxh);
      d.0 == code[i..] && d.1 <= salt && |e| == |code| - i + |d.1|
    decreases |code| - i
  {
    var e := EncodeFrom(code, i, salt, sxh).value;
    if i == |code| {
      assert e == [];
    } else if SaltedPrefix <= i {
      assert e == code[i..];
    } else {
      var take := Min(DigitValue(sxh[i]), |salt|);
      var left := salt[take..];
      assert salt == salt[..take] + left;
      assert code[i..] == [code[i]] + code[i + 1..];
      var rest := EncodeFrom(code, i + 1, left, sxh).value;
      assert e == [code[i]] + salt[..take] + rest;
      DecodeEncodeFrom(code, i + 1, left, sxh);
      var d := DecodeFrom(rest, i + 1, |left|, sxh);
      DecodeStep(code[i], salt[..take], rest, i, |salt|, sxh);
      PrefixExtend(salt[..take], d.1, left);
    }
  }

  /** One step of the decoder: a plaintext character, then its salt piece. */
  lemma DecodeStep(c: char, piece: String, rest: String, i: nat, saltLeft: nat, sxh: String)
    requires i < SaltedPrefix && DigitAt(sxh, i)
    requires |piece| == Min(DigitValue(sxh[i]), saltLeft)
    ensures var d := DecodeFrom(rest, i + 1, saltLeft - |piece|, sxh);
      DecodeFrom([c] + piece + rest, i, saltLeft, sxh) == ([c] + d.0, piece + d.1)
  {
    var e := [c] + piece + rest;
    assert e[0] == c && e[1..1 + |piece|] == piece && e[1 + |piece|..] == rest;
  }

  lemma PrefixExtend(a: String, b: String, c: String)
    requires b <= c
    ensures a + b <= a + c
  {
    assert (a + c)[..|a + b|] == a + c[..|b|];
  }

  /** Decoding a reply-based encoding with the reply's lengths and salt size recovers
      `username%%%password`. */
  lemma DecodeEncode(username: String, password: String, reply: String)
    requires Encode(username, password, reply).Ok?
    ensures var parts := Split(reply, "#");
      DecodeFrom(Encode(username, password, reply).value, 0, |parts[0]|, parts[1]).0
        == Plaintext(username, password)
  {
    var parts := Split(reply, "#");
    DecodeEncodeFrom(Plaintext(username, password), 0, parts[0], parts[1]);
  }

  /** `int(c)` for a one-character string accepts exactly the decimal digits, so the
      digit test above is the source's conversion. */
  lemma OneCharInt(c: char)
    ensures ParseInt([c]).Some? <==> IsDigit(c)
    ensures IsDigit(c) ==> ParseInt([c]) == Some(DigitValue(c) as int)
  {
    if IsSpace(c) {
      IntOfSpace(c);
    } else if c == '+' || c == '-' {
      IntOfSign(c);
    } else {
      IntOfOther(c);
      UnsignedOne(c);
    }
  }

  lemma IntOfSpace(c: char)
    requires IsSpace(c)
    ensures ParseInt([c]).None? && !IsDigit(c)
  {
    if IsInfoSeparator(c) {
      assert HasInfoSeparator([c]) by { assert IsInfoSeparator([c][0]); }
    } else {
      StripOne(c);
      assert !IsInfoSeparator([c][0]);
      assert !HasInfoSeparator([c]);
      UnsignedRead([c], []);
      assert !IsUnderscoredDigits([]);
    }
  }

  lemma IntOfSign(c: char)
    requires c == '+' || c == '-'
    ensures ParseInt([c]).None? && !IsDigit(c)
  {
    StripOne(c);
    var t := Strip([c]);
    assert t == [c];
    assert |t| > 0 && (t[0] == '+' || t[0] == '-');
    var rest := t[1..];
    assert rest == [];
    assert !IsUnderscoredDigits(rest);
    assert ParseUnsigned(rest).None?;
  }

  lemma IntOfOther(c: char)
    requires !IsSpace(c) && c != '+' && c != '-'
    ensures ParseInt([c]) == ParseUnsigned([c])
  {
    StripOne(c);
    assert !IsInfoSeparator([c][0]);
    assert !HasInfoSeparator([c]);
    UnsignedRead([c], [c]);
  }

  lemma StripOne(c: char)
    ensures Strip([c]) == if IsSpace(c) then [] else [c]
  {
    if !IsSpace(c) {
      StripUnpadded([c]);
    }
  }

  lemma UnsignedOne(c: char)
    ensures ParseUnsigned([c]).Some? <==> IsDigit(c)
    ensures IsDigit(c) ==> ParseUnsigned([c]) == Some(DigitValue(c))
  {
    if IsDigit(c) {
      ParseUnsignedOfDigits([c]);
      assert [c][..0] == [];
    }
  }
}
