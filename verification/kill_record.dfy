/** The cache record has one form: what the reader takes is exactly what the writer makes. */
module KillRecord {
  import opened Options
  import opened KillSwitch

  lemma {:induction false} DigitsAreText(text: seq<Byte>, n: nat)
    requires text != [] && (|text| > 1 ==> text[0] != 0x30) && DigitsValue(text) == Some(n)
    ensures n <= U64 && text == ToText(n) && (text[0] != 0x30 ==> n > 0)
  {
    var front, c := text[..|text|-1], text[|text|-1];
    var before := DigitsValue(front).value;
    assert text == front + [c];
    assert n == before * 10 + (c - 0x30);
    if front == [] {
      assert DigitsValue([]) == Some(0);
      assert text == [c];
    } else {
      DigitsAreText(front, before);
      assert n / 10 == before && n % 10 == c - 0x30;
    }
  }

  /** DECIMAL. A text is read as n exactly when it is the canonical decimal text of n in 64 bits. */
  lemma {:induction false} DecimalExactly(text: seq<Byte>, n: nat)
    ensures DecimalOf(text) == Some(n) <==> n <= U64 && text == ToText(n)
  {
    if DecimalOf(text) == Some(n) { DigitsAreText(text, n); }
    if n <= U64 { DecimalBack(n); }
    hide DigitsValue, ToText;
  }

  lemma {:induction false} FirstLineEnds(text: seq<Byte>)
    ensures var e := FirstLine(text);
            (e < |text| ==> text[e] == LF && text == text[..e] + [LF] + text[e+1..])
  {
    if text != [] && text[0] != LF { FirstLineEnds(text[1..]); }
  }

  lemma {:induction false} PrefixThen(word: seq<Byte>, line: seq<Byte>)
    requires word <= line && |word| == 8
    ensures line == word + line[8..]
  {
  }

  /** Whatever is read from a record was its whole first line and everything after it. */
  lemma {:induction false} RecordSplits(parse: Parser, bytes: seq<Byte>)
    requires ReadRecord(parse, bytes) != NoRecord
    ensures HEADER <= bytes && FirstLine(bytes[|HEADER|..]) < |bytes[|HEADER|..]|
    ensures var text := bytes[|HEADER|..];
            var line, rest := text[..FirstLine(text)], text[FirstLine(text)+1..];
            bytes == HEADER + (line + [LF] + rest) && ReadRecord(parse, bytes) == ReadParts(parse, line, rest)
  {
    var text := bytes[|HEADER|..];
    FirstLineEnds(text);
    hide FirstLine, ReadParts;
    assert bytes == HEADER + text;
  }

  lemma {:induction false} PartsExactly(parse: Parser, line: seq<Byte>, rest: seq<Byte>)
    ensures ReadParts(parse, line, rest) == Withdrawn ==>
              rest == [] && exists utc: nat :: utc <= U64 && line == LineOf(true, utc)
    ensures forall leases, at: nat :: ReadParts(parse, line, rest) == Checked(leases, at) ==>
              at <= U64 && line == LineOf(false, at) && parse(rest) == Some(leases)
  {
    hide DecimalOf, ToText;
    if REVOKED <= line && DecimalOf(line[8..]).Some? {
      var utc := DecimalOf(line[8..]).value;
      DecimalExactly(line[8..], utc);
      PrefixThen(REVOKED, line);
      assert utc <= U64 && line == LineOf(true, utc);
    }
    if CHECKED <= line && DecimalOf(line[8..]).Some? {
      DecimalExactly(line[8..], DecimalOf(line[8..]).value);
      PrefixThen(CHECKED, line);
    }
  }

  lemma {:induction false} WrittenForm(revoked: bool, utc: nat, line: seq<Byte>, rest: seq<Byte>)
    requires utc <= U64 && line == LineOf(revoked, utc) && (revoked ==> rest == [])
    ensures RecordOf(revoked, utc, rest) == HEADER + (line + [LF] + rest)
  {
    RecordLine(revoked, utc, rest);
    hide RecordOf, LineOf;
  }

  /** RECORD. A cache file is read as a withdrawal exactly when it is a written withdrawal, and as a check
      exactly when it is that check written with an envelope that authenticates that list. */
  lemma {:induction false} ReadExactly(parse: Parser, bytes: seq<Byte>)
    ensures ReadRecord(parse, bytes) == Withdrawn <==> exists utc: nat :: utc <= U64 && bytes == RecordOf(true, utc, [])
    ensures forall leases, at: nat :: ReadRecord(parse, bytes) == Checked(leases, at) <==>
              at <= U64 && exists envelope :: bytes == RecordOf(false, at, envelope) && parse(envelope) == Some(leases)
  {
    hide RecordOf, ReadParts, ReadRecord, LineOf;
    if ReadRecord(parse, bytes) != NoRecord {
      RecordSplits(parse, bytes);
      var text := bytes[|HEADER|..];
      var line, rest := text[..FirstLine(text)], text[FirstLine(text)+1..];
      PartsExactly(parse, line, rest);
      if ReadRecord(parse, bytes) == Withdrawn {
        var utc: nat :| utc <= U64 && line == LineOf(true, utc);
        WrittenForm(true, utc, line, rest);
      } else {
        var leases, at := ReadRecord(parse, bytes).leases, ReadRecord(parse, bytes).at;
        assert ReadParts(parse, line, rest) == Checked(leases, at);
        WrittenForm(false, at, line, rest);
        assert bytes == RecordOf(false, at, rest) && parse(rest) == Some(leases);
      }
    }
    forall utc: nat | utc <= U64 && bytes == RecordOf(true, utc, []) ensures ReadRecord(parse, bytes) == Withdrawn {
      RecordReadsBack(parse, true, utc, []);
    }
    forall at: nat, envelope | at <= U64 && bytes == RecordOf(false, at, envelope) && parse(envelope).Some?
      ensures ReadRecord(parse, bytes) == Checked(parse(envelope).value, at)
    {
      RecordReadsBack(parse, false, at, envelope);
    }
  }
}
