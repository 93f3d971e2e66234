/**
 * addrInet4ToBytes from net.go: a dotted-quad IPv4 address parser. The string
 * is split at '.', the first four fields go through strconv.Atoi in order, and
 * each parsed integer is truncated to a byte with no range check.
 */
module Net {
  import opened Optional
  import opened Strconv

  /** strings.Split(s, string(sep)) for a one-character separator. */
  function Split(s: string, sep: char): (r: seq<string>)
    ensures |r| >= 1
    ensures forall i | 0 <= i < |r| :: sep !in r[i]
  {
    if s == [] then [""]
    else
      var rest := Split(s[1..], sep);
      if s[0] == sep then [""] + rest else [[s[0]] + rest[0]] + rest[1..]
  }

  /** Go's byte(a): the low eight bits of a two's-complement integer. */
  function ToByte(a: int): bv8
  {
    (a % 256) as bv8
  }

  /**
   * The source indexes `as[i]` for i = 0..3 and stops at the first Atoi error,
   * so it reads past the end of the split result exactly when fewer than n
   * fields remain and none of those present fails to parse.
   */
  predicate FieldsReachable(fields: seq<string>, n: nat)
  {
    n == 0 || (|fields| > 0 && (Atoi(fields[0]).None? || FieldsReachable(fields[1..], n - 1)))
  }

  /** The conversion loop over the first n fields: None at the first field Atoi rejects. */
  function ConvertFields(fields: seq<string>, n: nat): (r: Option<seq<bv8>>)
    requires FieldsReachable(fields, n)
    ensures r.Some? <==> |fields| >= n && forall i | 0 <= i < n :: Atoi(fields[i]).Some?
    ensures r.Some? ==> |r.value| == n && forall i | 0 <= i < n :: r.value[i] == ToByte(Atoi(fields[i]).value)
  {
    if n == 0 then Some([])
    else
      match Atoi(fields[0])
      case None => None
      case Some(a) =>
        match ConvertFields(fields[1..], n - 1)
        case None => None
        case Some(rest) => Some([ToByte(a)] + rest)
  }

  /** The result pair ([4]byte, error); a failed parse yields the all-zero array. */
  datatype Inet4 = Inet4(addr: seq<bv8>, ok: bool)

  function AddrInet4ToBytes(addr: string): (r: Inet4)
    requires FieldsReachable(Split(addr, '.'), 4)
    ensures |r.addr| == 4
    ensures var fields := Split(addr, '.');
      r.ok <==> |fields| >= 4 && forall i | 0 <= i < 4 :: Atoi(fields[i]).Some?
    ensures var fields := Split(addr, '.');
      r.ok ==> forall i | 0 <= i < 4 :: r.addr[i] == ToByte(Atoi(fields[i]).value)
    ensures !r.ok ==> r.addr == [0, 0, 0, 0]
  {
    match ConvertFields(Split(addr, '.'), 4)
    case None => Inet4([0, 0, 0, 0], false)
    case Some(b) => Inet4(b, true)
  }

  /** The dotted-quad text of four bytes, as an address would be written. */
  function FormatInet4(b: seq<bv8>): string
    requires |b| == 4
  {
    FormatInt(b[0] as int) + "." + FormatInt(b[1] as int) + "." + FormatInt(b[2] as int) + "." + FormatInt(b[3] as int)
  }

  /** Splitting at a separator that x does not contain yields x's fields followed by y's. */
  lemma {:induction false} SplitConcat(x: string, sep: char, y: string)
    ensures Split(x + [sep] + y, sep) == Split(x, sep) + Split(y, sep)
  {
    if x == [] {
      assert x + [sep] + y == [sep] + y;
      assert ([sep] + y)[1..] == y;
    } else {
      assert (x + [sep] + y)[1..] == x[1..] + [sep] + y;
      SplitConcat(x[1..], sep, y);
    }
  }

  /** A string without the separator is a single field. */
  lemma {:induction false} SplitNoSeparator(x: string, sep: char)
    requires sep !in x
    ensures Split(x, sep) == [x]
  {
    if x != [] {
      SplitNoSeparator(x[1..], sep);
      assert x == [x[0]] + x[1..];
    }
  }

  /** Fields beyond the ones the loop reads do not influence the result. */
  lemma {:induction false} ConvertIgnoresExtra(fields: seq<string>, more: seq<string>, n: nat)
    requires FieldsReachable(fields, n)
    ensures FieldsReachable(fields + more, n)
    ensures ConvertFields(fields + more, n) == ConvertFields(fields, n)
  {
    if n > 0 {
      assert (fields + more)[0] == fields[0];
      if Atoi(fields[0]).Some? {
        assert (fields + more)[1..] == fields[1..] + more;
        ConvertIgnoresExtra(fields[1..], more, n - 1);
      }
    }
  }

  /** Anything after a fourth dot is ignored. */
  lemma ExtraFieldsIgnored(addr: string, tail: string)
    requires FieldsReachable(Split(addr, '.'), 4)
    ensures FieldsReachable(Split(addr + "." + tail, '.'), 4)
    ensures AddrInet4ToBytes(addr + "." + tail) == AddrInet4ToBytes(addr)
  {
    SplitConcat(addr, '.', tail);
    ConvertIgnoresExtra(Split(addr, '.'), Split(tail, '.'), 4);
  }

  lemma FormattedByteHasNoDot(b: bv8)
    ensures '.' !in FormatInt(b as int)
  {
    assert FormatInt(b as int) == FormatNat(b as int);
  }

  /** With enough fields that all parse, the loop never reads past the end. */
  lemma {:induction false} ParsableFieldsReachable(fields: seq<string>, n: nat)
    requires |fields| >= n && forall i | 0 <= i < n :: Atoi(fields[i]).Some?
    ensures FieldsReachable(fields, n)
  {
    if n > 0 {
      ParsableFieldsReachable(fields[1..], n - 1);
    }
  }

  /** Four dot-free fields joined by dots split back into those four fields. */
  lemma SplitFour(f0: string, f1: string, f2: string, f3: string)
    requires '.' !in f0 && '.' !in f1 && '.' !in f2 && '.' !in f3
    ensures Split(f0 + "." + f1 + "." + f2 + "." + f3, '.') == [f0, f1, f2, f3]
  {
    SplitNoSeparator(f0, '.');
    SplitNoSeparator(f1, '.');
    SplitNoSeparator(f2, '.');
    SplitNoSeparator(f3, '.');
    SplitConcat(f0, '.', f1);
    SplitConcat(f0 + "." + f1, '.', f2);
    SplitConcat(f0 + "." + f1 + "." + f2, '.', f3);
  }

  /** A byte's decimal text has no dot and Atoi reads it back as that byte. */
  lemma FormattedByte(b: bv8)
    ensures '.' !in FormatInt(b as int)
    ensures Atoi(FormatInt(b as int)) == Some(b as int)
    ensures ToByte(b as int) == b
  {
    FormattedByteHasNoDot(b);
    ParseFormatIgnoringError(b as int);
    ByteRoundTrip(b);
  }

  lemma ByteRoundTrip(b: bv8)
    ensures ToByte(b as int) == b
  {
    assert (b as int) % 256 == b as int;
  }

  /** Formatting four bytes as a dotted quad and parsing the text back gives the same bytes. */
  lemma ParseFormattedAddress(b: seq<bv8>)
    requires |b| == 4
    ensures FieldsReachable(Split(FormatInet4(b), '.'), 4)
    ensures AddrInet4ToBytes(FormatInet4(b)) == Inet4(b, true)
  {
    FormattedByte(b[0]);
    FormattedByte(b[1]);
    FormattedByte(b[2]);
    FormattedByte(b[3]);
    var f0, f1, f2, f3 := FormatInt(b[0] as int), FormatInt(b[1] as int), FormatInt(b[2] as int), FormatInt(b[3] as int);
    assert FormatInet4(b) == f0 + "." + f1 + "." + f2 + "." + f3;
    ParseQuad(f0, f1, f2, f3);
    assert [ToByte(Atoi(f0).value), ToByte(Atoi(f1).value), ToByte(Atoi(f2).value), ToByte(Atoi(f3).value)] == b;
  }

  /** The loopback address used by the server test. */
  lemma Loopback()
    ensures FieldsReachable(Split("127.0.0.1", '.'), 4)
    ensures AddrInet4ToBytes("127.0.0.1") == Inet4([127, 0, 0, 1], true)
  {
    ParseFormattedAddress([127, 0, 0, 1]);
    assert FormatInt(127) == "127";
    assert FormatInt(0) == "0";
    assert FormatInt(1) == "1";
    assert FormatInet4([127, 0, 0, 1]) == "127.0.0.1";
  }

  /** Four dot-free fields that Atoi accepts give their truncated values. */
  lemma ParseQuad(f0: string, f1: string, f2: string, f3: string)
    requires '.' !in f0 && '.' !in f1 && '.' !in f2 && '.' !in f3
    requires Atoi(f0).Some? && Atoi(f1).Some? && Atoi(f2).Some? && Atoi(f3).Some?
    ensures FieldsReachable(Split(f0 + "." + f1 + "." + f2 + "." + f3, '.'), 4)
    ensures AddrInet4ToBytes(f0 + "." + f1 + "." + f2 + "." + f3)
         == Inet4([ToByte(Atoi(f0).value), ToByte(Atoi(f1).value), ToByte(Atoi(f2).value), ToByte(Atoi(f3).value)], true)
  {
    SplitFour(f0, f1, f2, f3);
    ParsableFieldsReachable([f0, f1, f2, f3], 4);
  }

  /** No range check: 256 wraps to 0. */
  lemma TooLargeWraps()
    ensures FieldsReachable(Split("256.0.0.1", '.'), 4)
    ensures AddrInet4ToBytes("256.0.0.1") == Inet4([0, 0, 0, 1], true)
  {
    assert FormatInt(256) == "256" && FormatInt(0) == "0" && FormatInt(1) == "1";
    ParseFormatIgnoringError(256);
    ParseFormatIgnoringError(0);
    ParseFormatIgnoringError(1);
    assert "256.0.0.1" == "256" + "." + "0" + "." + "0" + "." + "1";
    ParseQuad("256", "0", "0", "1");
  }

  /** No range check: -1 wraps to 255. */
  lemma NegativeWraps()
    ensures FieldsReachable(Split("-1.0.0.1", '.'), 4)
    ensures AddrInet4ToBytes("-1.0.0.1") == Inet4([255, 0, 0, 1], true)
  {
    assert FormatInt(-1) == "-1" && FormatInt(0) == "0" && FormatInt(1) == "1";
    ParseFormatIgnoringError(-1);
    ParseFormatIgnoringError(0);
    ParseFormatIgnoringError(1);
    assert Atoi("-1") == Some(-1) && Atoi("0") == Some(0) && Atoi("1") == Some(1);
    assert ToByte(-1) == 255 && ToByte(0) == 0 && ToByte(1) == 1;
    assert "-1.0.0.1" == "-1" + "." + "0" + "." + "0" + "." + "1";
    ParseQuad("-1", "0", "0", "1");
  }

  /** Fewer than n fields, all of which parse: the loop reads past the end. */
  lemma {:induction false} ShortFieldsOverrun(fields: seq<string>, n: nat)
    requires |fields| < n && forall i | 0 <= i < |fields| :: Atoi(fields[i]).Some?
    ensures !FieldsReachable(fields, n)
  {
    if |fields| > 0 {
      ShortFieldsOverrun(fields[1..], n - 1);
    }
  }

  /** With only three fields that all parse, the loop indexes a fourth field that does not exist. */
  lemma ThreeFieldsOverrun()
    ensures !FieldsReachable(Split("1.2.3", '.'), 4)
  {
    assert FormatInt(1) == "1" && FormatInt(2) == "2" && FormatInt(3) == "3";
    ParseFormatIgnoringError(1);
    ParseFormatIgnoringError(2);
    ParseFormatIgnoringError(3);
    SplitNoSeparator("1", '.');
    SplitNoSeparator("2", '.');
    SplitNoSeparator("3", '.');
    SplitConcat("1", '.', "2");
    SplitConcat("1" + "." + "2", '.', "3");
    assert "1.2.3" == "1" + "." + "2" + "." + "3";
    ShortFieldsOverrun(["1", "2", "3"], 4);
  }

  /** The first field Atoi rejects ends the loop with an error and the zero address, before any overrun. */
  lemma FirstBadFieldFails()
    ensures FieldsReachable(Split("1.x", '.'), 4)
    ensures AddrInet4ToBytes("1.x") == Inet4([0, 0, 0, 0], false)
  {
    assert FormatInt(1) == "1";
    ParseFormatIgnoringError(1);
    MalformedIsZero("x");
    SplitNoSeparator("1", '.');
    SplitNoSeparator("x", '.');
    SplitConcat("1", '.', "x");
    assert "1.x" == "1" + "." + "x";
    assert Split("1.x", '.') == ["1", "x"];
  }
}
