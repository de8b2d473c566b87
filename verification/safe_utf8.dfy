/** Strict UTF-8 acceptance against the encoding of sections 3 and 4 of RFC 3629. */
module SafeText {
  import opened Options

  type Byte = n: nat | n < 256
  type CodePoint = n: nat | n <= 0x10FFFF

  // ---------------------------------------------------------------- what is to be accepted

  /** A Unicode scalar value that is not a C0, DEL or C1 control. */
  predicate Printable(c: CodePoint) {
    0x20 <= c && c != 0x7F && !(0x80 <= c <= 0x9F) && !(0xD800 <= c <= 0xDFFF)
  }

  function Encode(c: CodePoint): seq<Byte> {
    if c < 0x80 then [c]
    else if c < 0x800 then [0xC0 + c / 64, 0x80 + c % 64]
    else if c < 0x10000 then [0xE0 + c / 4096, 0x80 + c / 64 % 64, 0x80 + c % 64]
    else [0xF0 + c / 262144, 0x80 + c / 4096 % 64, 0x80 + c / 64 % 64, 0x80 + c % 64]
  }

  function EncodeAll(text: seq<CodePoint>): seq<Byte> {
    if text == [] then [] else Encode(text[0]) + EncodeAll(text[1..])
  }

  ghost predicate IsTextOf(bytes: seq<Byte>, text: seq<CodePoint>) {
    (forall c :: c in text ==> Printable(c)) && bytes == EncodeAll(text)
  }

  /** Some printable text has this encoding. */
  ghost predicate EncodesText(bytes: seq<Byte>) { exists text: seq<CodePoint> :: IsTextOf(bytes, text) }

  // ------------------------------------------------------------------ one character

  /** The lead byte's continuation count, leading value and smallest value needing that many. */
  function Lead(first: Byte): Option<(nat, nat, nat)> {
    if 0xC2 <= first <= 0xDF then Some((1, first % 32, 0x80))
    else if 0xE0 <= first <= 0xEF then Some((2, first % 16, 0x800))
    else if 0xF0 <= first <= 0xF4 then Some((3, first % 8, 0x10000))
    else None
  }

  /** Six bits from each of the next n bytes, which must all be continuations. */
  function Continue(bytes: seq<Byte>, value: nat, n: nat): Option<nat>
    requires n < |bytes|
  {
    if n == 0 then Some(value)
    else
      var before := Continue(bytes, value, n - 1);
      if before.None? || bytes[n] / 64 != 2 then None else Some(before.value * 64 + bytes[n] % 64)
  }

  predicate Permitted(value: nat, minimum: nat) {
    !(value < minimum || value > 0x10FFFF || (0xD800 <= value <= 0xDFFF) || (0x80 <= value <= 0x9F))
  }

  /** The first character and its length, or nothing. */
  function One(bytes: seq<Byte>): Option<(CodePoint, nat)>
    requires bytes != []
  {
    var first := bytes[0];
    if first < 0x80 then if first < 0x20 || first == 0x7F then None else Some((first, 1))
    else
      var lead := Lead(first);
      if lead.None? || |bytes| - 1 < lead.value.0 then None
      else
        var value := Continue(bytes, lead.value.1, lead.value.0);
        if value.None? || !Permitted(value.value, lead.value.2) then None else Some((value.value, lead.value.0 + 1))
  }

  lemma {:induction false} ContinueUnrolls(bytes: seq<Byte>, value: nat)
    ensures |bytes| > 1 ==>
              Continue(bytes, value, 1) == if bytes[1] / 64 != 2 then None else Some(value * 64 + bytes[1] % 64)
    ensures |bytes| > 2 ==>
              var one := Continue(bytes, value, 1);
              Continue(bytes, value, 2) ==
                if one.None? || bytes[2] / 64 != 2 then None else Some(one.value * 64 + bytes[2] % 64)
    ensures |bytes| > 3 ==>
              var two := Continue(bytes, value, 2);
              Continue(bytes, value, 3) ==
                if two.None? || bytes[3] / 64 != 2 then None else Some(two.value * 64 + bytes[3] % 64)
  {
    assert |bytes| > 0 ==> Continue(bytes, value, 0) == Some(value);
  }

  lemma {:induction false} TwoBytes(b0: Byte, b1: Byte, c: nat)
    requires 0xC2 <= b0 <= 0xDF && b1 / 64 == 2 && c == b0 % 32 * 64 + b1 % 64
    ensures 0x80 <= c < 0x800 && [b0, b1] == [0xC0 + c / 64, 0x80 + c % 64]
  {
  }

  lemma {:induction false} ThreeBytes(b0: Byte, b1: Byte, b2: Byte, c: nat)
    requires 0xE0 <= b0 <= 0xEF && b1 / 64 == 2 && b2 / 64 == 2
    requires c == (b0 % 16 * 64 + b1 % 64) * 64 + b2 % 64
    ensures c < 0x10000 && [b0, b1, b2] == [0xE0 + c / 4096, 0x80 + c / 64 % 64, 0x80 + c % 64]
  {
    assert c / 64 == b0 % 16 * 64 + b1 % 64;
    assert c / 4096 == b0 % 16;
  }

  lemma {:induction false} FourBytes(b0: Byte, b1: Byte, b2: Byte, b3: Byte, c: nat)
    requires 0xF0 <= b0 <= 0xF4 && b1 / 64 == 2 && b2 / 64 == 2 && b3 / 64 == 2
    requires c == ((b0 % 8 * 64 + b1 % 64) * 64 + b2 % 64) * 64 + b3 % 64
    ensures [b0, b1, b2, b3] == [0xF0 + c / 262144, 0x80 + c / 4096 % 64, 0x80 + c / 64 % 64, 0x80 + c % 64]
  {
    assert c / 64 == (b0 % 8 * 64 + b1 % 64) * 64 + b2 % 64;
    assert c / 4096 == b0 % 8 * 64 + b1 % 64;
    assert c / 262144 == b0 % 8;
  }

  /** Bytes of a permitted multi-byte character are its encoding, for each length in turn. */
  lemma {:induction false} ReadsTwo(bytes: seq<Byte>, c: nat)
    requires |bytes| > 1 && 0xC2 <= bytes[0] <= 0xDF && Permitted(c, 0x80)
    requires Continue(bytes, bytes[0] % 32, 1) == Some(c)
    ensures Printable(c) && bytes[..2] == Encode(c)
  {
    ContinueUnrolls(bytes, bytes[0] % 32);
    hide Continue;
    TwoBytes(bytes[0], bytes[1], c);
    assert bytes[..2] == [bytes[0], bytes[1]];
  }

  lemma {:induction false} ReadsThree(bytes: seq<Byte>, c: nat)
    requires |bytes| > 2 && 0xE0 <= bytes[0] <= 0xEF && Permitted(c, 0x800)
    requires Continue(bytes, bytes[0] % 16, 2) == Some(c)
    ensures Printable(c) && bytes[..3] == Encode(c)
  {
    ContinueUnrolls(bytes, bytes[0] % 16);
    hide Continue;
    ThreeBytes(bytes[0], bytes[1], bytes[2], c);
    assert bytes[..3] == [bytes[0], bytes[1], bytes[2]];
  }

  lemma {:induction false} ReadsFour(bytes: seq<Byte>, c: nat)
    requires |bytes| > 3 && 0xF0 <= bytes[0] <= 0xF4 && Permitted(c, 0x10000)
    requires Continue(bytes, bytes[0] % 8, 3) == Some(c)
    ensures Printable(c) && bytes[..4] == Encode(c)
  {
    ContinueUnrolls(bytes, bytes[0] % 8);
    hide Continue;
    FourBytes(bytes[0], bytes[1], bytes[2], bytes[3], c);
    assert bytes[..4] == [bytes[0], bytes[1], bytes[2], bytes[3]];
  }

  /** Reading one character succeeds only on the encoding of a printable scalar. */
  lemma {:induction false} OneReads(bytes: seq<Byte>)
    requires bytes != []
    ensures One(bytes).Some? ==>
              var (c, n) := One(bytes).value;
              Printable(c) && 0 < n <= |bytes| && bytes[..n] == Encode(c)
  {
    var first := bytes[0];
    if One(bytes).Some? {
      var c := One(bytes).value.0;
      if first < 0x80 {
        assert bytes[..1] == [first];
      } else if first <= 0xDF {
        hide Continue, Permitted, Printable, Encode;
        ReadsTwo(bytes, c);
      } else if first <= 0xEF {
        hide Continue, Permitted, Printable, Encode;
        ReadsThree(bytes, c);
      } else {
        hide Continue, Permitted, Printable, Encode;
        ReadsFour(bytes, c);
      }
    }
  }

  lemma {:induction false} Regroups(c: CodePoint)
    ensures c == c / 64 * 64 + c % 64
    ensures c / 64 == c / 4096 * 64 + c / 64 % 64
    ensures c / 4096 == c / 262144 * 64 + c / 4096 % 64
  {
  }

  lemma {:induction false} TwoRead(c: CodePoint, bytes: seq<Byte>)
    requires Printable(c) && 0x80 <= c < 0x800 && |bytes| >= 2
    requires bytes[0] == 0xC0 + c / 64 && bytes[1] == 0x80 + c % 64
    ensures One(bytes) == Some((c, 2))
  {
    ContinueUnrolls(bytes, c / 64);
    hide Continue;
    assert Lead(bytes[0]) == Some((1, c / 64, 0x80));
    assert bytes[1] / 64 == 2 && bytes[1] % 64 == c % 64;
  }

  lemma {:induction false} ThreeRead(c: CodePoint, bytes: seq<Byte>)
    requires Printable(c) && 0x800 <= c < 0x10000 && |bytes| >= 3
    requires bytes[0] == 0xE0 + c / 4096 && bytes[1] == 0x80 + c / 64 % 64 && bytes[2] == 0x80 + c % 64
    ensures One(bytes) == Some((c, 3))
  {
    ContinueUnrolls(bytes, c / 4096);
    Regroups(c);
    hide Continue;
    assert Lead(bytes[0]) == Some((2, c / 4096, 0x800));
    assert bytes[1] / 64 == 2 && bytes[1] % 64 == c / 64 % 64;
    assert bytes[2] / 64 == 2 && bytes[2] % 64 == c % 64;
  }

  lemma {:induction false} FourRead(c: CodePoint, bytes: seq<Byte>)
    requires Printable(c) && 0x10000 <= c && |bytes| >= 4
    requires bytes[0] == 0xF0 + c / 262144 && bytes[1] == 0x80 + c / 4096 % 64
    requires bytes[2] == 0x80 + c / 64 % 64 && bytes[3] == 0x80 + c % 64
    ensures One(bytes) == Some((c, 4))
  {
    ContinueUnrolls(bytes, c / 262144);
    Regroups(c);
    hide Continue;
    assert Lead(bytes[0]) == Some((3, c / 262144, 0x10000));
    assert bytes[1] / 64 == 2 && bytes[1] % 64 == c / 4096 % 64;
    assert bytes[2] / 64 == 2 && bytes[2] % 64 == c / 64 % 64;
    assert bytes[3] / 64 == 2 && bytes[3] % 64 == c % 64;
  }

  /** The encoding of a printable scalar reads back as that scalar, whatever follows. */
  lemma {:induction false} EncodeReads(c: CodePoint, rest: seq<Byte>)
    requires Printable(c)
    ensures One(Encode(c) + rest) == Some((c, |Encode(c)|))
  {
    var bytes := Encode(c) + rest;
    if c < 0x80 {
      assert bytes[0] == c;
    } else {
      hide One;
      if c < 0x800 { TwoRead(c, bytes); }
      else if c < 0x10000 { ThreeRead(c, bytes); }
      else { FourRead(c, bytes); }
    }
  }

  // --------------------------------------------------------------------- a whole text

  predicate Reads(bytes: seq<Byte>) {
    bytes == [] ||
    (One(bytes).Some? && 0 < One(bytes).value.1 <= |bytes| && Reads(bytes[One(bytes).value.1..]))
  }

  lemma {:induction false} FirstRead(bytes: seq<Byte>) returns (c: CodePoint, n: nat)
    requires Reads(bytes) && bytes != []
    ensures Printable(c) && 0 < n <= |bytes| && bytes[..n] == Encode(c) && Reads(bytes[n..])
  {
    OneReads(bytes);
    c, n := One(bytes).value.0, One(bytes).value.1;
    hide Encode, One, Printable;
  }

  lemma {:induction false} TextCons(c: CodePoint, bytes: seq<Byte>, text: seq<CodePoint>)
    requires Printable(c) && IsTextOf(bytes, text)
    ensures IsTextOf(Encode(c) + bytes, [c] + text)
  {
    hide Encode, Printable;
    assert ([c] + text)[1..] == text;
  }

  lemma {:induction false} ReadsText(bytes: seq<Byte>) returns (text: seq<CodePoint>)
    requires Reads(bytes)
    ensures IsTextOf(bytes, text)
  {
    if bytes == [] {
      text := [];
      assert EncodeAll([]) == [];
    } else {
      var c, n := FirstRead(bytes);
      hide *;
      var rest := ReadsText(bytes[n..]);
      text := [c] + rest;
      TextCons(c, bytes[n..], rest);
      assert bytes == bytes[..n] + bytes[n..];
    }
  }

  lemma {:induction false} TextReads(text: seq<CodePoint>)
    requires forall c :: c in text ==> Printable(c)
    ensures Reads(EncodeAll(text))
  {
    if text != [] {
      var c, rest := text[0], EncodeAll(text[1..]);
      TextReads(text[1..]);
      EncodeReads(c, rest);
      EncodeLength(c);
      hide Encode, One, Printable;
      assert (Encode(c) + rest)[|Encode(c)|..] == rest;
    }
  }

  lemma {:induction false} EncodeLength(c: CodePoint)
    requires Printable(c)
    ensures 0 < |Encode(c)| <= 4
  {
  }

  /** STRICT UTF-8. The scan accepts exactly the encodings of printable scalar values. */
  lemma {:induction false} ReadsExactly(bytes: seq<Byte>)
    ensures Reads(bytes) <==> EncodesText(bytes)
  {
    if Reads(bytes) { var text := ReadsText(bytes); }
    forall text: seq<CodePoint> | IsTextOf(bytes, text) ensures Reads(bytes) { TextReads(text); }
    hide Reads, EncodeAll, Printable;
  }

  /** The continuation loop of one character. */
  method Tail(bytes: seq<Byte>, i: nat, lead: nat, count: nat) returns (value: Option<nat>)
    requires i + count <= |bytes| && i > 0
    ensures value == Continue(bytes[i-1..], lead, count)
  {
    var v: nat := lead;
    for j := 0 to count
      invariant Continue(bytes[i-1..], lead, j) == Some(v)
    {
      var next := bytes[i + j];
      assert bytes[i-1..][j + 1] == next;
      if next / 64 != 2 {
        ContinueFails(bytes[i-1..], lead, j + 1, count);
        return None;
      }
      v := v * 64 + next % 64;
    }
    value := Some(v);
  }

  lemma {:induction false} ContinueFails(bytes: seq<Byte>, value: nat, j: nat, n: nat)
    requires j <= n < |bytes| && Continue(bytes, value, j).None?
    ensures Continue(bytes, value, n).None?
  {
    if j < n { ContinueFails(bytes, value, j, n - 1); }
  }

  lemma {:induction false} OneLength(bytes: seq<Byte>)
    requires bytes != [] && One(bytes).Some?
    ensures 0 < One(bytes).value.1 <= |bytes|
  {
  }

  lemma {:induction false} ReadsStep(bytes: seq<Byte>)
    ensures bytes == [] ==> Reads(bytes)
    ensures bytes != [] ==>
              (Reads(bytes) <==>
                One(bytes).Some? && 0 < One(bytes).value.1 <= |bytes| && Reads(bytes[One(bytes).value.1..]))
  {
    hide One;
  }

  lemma {:induction false} ReadsFrom(bytes: seq<Byte>, i: nat)
    requires i < |bytes|
    ensures var one := One(bytes[i..]);
            one.Some? ==> i + one.value.1 <= |bytes| &&
                          (Reads(bytes[i..]) <==> Reads(bytes[i + one.value.1..]))
    ensures One(bytes[i..]).None? ==> !Reads(bytes[i..])
  {
    var rest := bytes[i..];
    ReadsStep(rest);
    if One(rest).Some? {
      OneLength(rest);
      hide *;
      assert rest[One(rest).value.1..] == bytes[i + One(rest).value.1..];
    }
  }

  /** The validator's loop. */
  method SafeUtf8(bytes: seq<Byte>, maximum: nat) returns (ok: bool)
    ensures ok <==> 0 < |bytes| <= maximum && EncodesText(bytes)
  {
    if |bytes| == 0 || |bytes| > maximum { return false; }
    ReadsExactly(bytes);
    hide EncodesText;
    assert bytes[0..] == bytes;
    var i := 0;
    while i < |bytes|
      invariant i <= |bytes| && (Reads(bytes) <==> Reads(bytes[i..]))
    {
      hide Continue, Permitted, Reads;
      ReadsFrom(bytes, i);
      var first := bytes[i];
      i := i + 1;
      if first < 0x80 {
        if first < 0x20 || first == 0x7F { return false; }
      } else {
        var lead := Lead(first);
        if lead.None? { return false; }
        var (count, leading, minimum) := lead.value;
        if |bytes| - i < count { return false; }
        var value := Tail(bytes, i, leading, count);
        if value.None? || !Permitted(value.value, minimum) { return false; }
        i := i + count;
      }
    }
    ReadsStep([]);
    ok := true;
  }
}
