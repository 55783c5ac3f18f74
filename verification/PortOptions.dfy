/** The numeric command-line options of the discovery server: validated as an int, read again later as a
    uint16_t.  Both go through formatted stream extraction. */
module PortOptions {
  import opened Decimal
  import opened Optional

  /** What `is >> x` leaves behind: whether it succeeded, the value, and whether the stream is at its end. */
  datatype Extracted = Extracted(ok: bool, value: int, eof: bool)

  function ExtractInt(s: string): Extracted {
    var r := ScanNumber(s);
    Extracted(r.digits > 0 && -0x8000_0000 <= r.Number() < 0x8000_0000, r.Number(), r.end == |s|)
  }

  /** Unsigned extraction accepts a minus sign and negates modulo 2^16. */
  function ExtractU16(s: string): Extracted {
    var r := ScanNumber(s);
    Extracted(r.digits > 0 && r.magnitude < 0x1_0000, r.Number() % 0x1_0000, r.end == |s|)
  }

  /** check_udp_port and check_tcp_port */
  predicate CheckPort(arg: Option<string>) {
    arg.Some? && var e := ExtractInt(arg.value); e.ok && e.eof && 1024 < e.value < 65536
  }

  /** check_server_id */
  predicate CheckServerId(arg: Option<string>) {
    arg.Some? && var e := ExtractInt(arg.value); e.ok && e.eof && 0 <= e.value < 256
  }

  /** The later read of a port: a uint16_t, to the end of the string, and not zero. */
  function ReadPort(s: string): (r: Option<int>)
    ensures r.Some? ==> 1 <= r.value <= 65535
  {
    var e := ExtractU16(s);
    if e.ok && e.eof && e.value != 0 then Some(e.value) else None
  }

  /** A validated port is read again to the same value, so no later port parse fails. */
  lemma CheckedPortReads(s: string)
    requires CheckPort(Some(s))
    ensures ReadPort(s) == Some(ExtractInt(s).value) && 1025 <= ReadPort(s).value <= 65535
  {
    hide ScanNumber;
  }

  /** The validation accepts the printed form of exactly the ports 1025 to 65535 ... */
  lemma PrintedPortChecks(p: int)
    ensures CheckPort(Some(ToText(p))) <==> 1025 <= p <= 65535
    ensures CheckServerId(Some(ToText(p))) <==> 0 <= p <= 255
    ensures 1025 <= p <= 65535 ==> ReadPort(ToText(p)) == Some(p)
  {
    hide ScanNumber, ToText;
    TextScans(p);
  }

  /** ... and of all texts exactly the numbers in those ranges, with any space before and an optional sign, that go to
      the end of the string; the later read takes such a text for its value modulo 2^16. */
  lemma WrittenPortChecks(s: string, space: string, sign: string, digits: string, rest: string)
    requires Writes(s, space, sign, digits, rest)
    ensures CheckPort(Some(s)) <==> rest == "" && 1025 <= Written(sign, digits) <= 65535
    ensures CheckServerId(Some(s)) <==> rest == "" && 0 <= Written(sign, digits) <= 255
    ensures ReadPort(s) == if rest == "" && Value(digits) <= 65535 && Written(sign, digits) % 0x1_0000 != 0
                           then Some(Written(sign, digits) % 0x1_0000) else None
  {
    hide ScanNumber, Value;
    WrittenScans(s, space, sign, digits, rest);
    assert |s| == |space| + |sign| + |digits| + |rest|;
  }

  /** ... while a text without a number, or no text, passes nowhere. */
  lemma NothingChecks(s: string)
    requires ScanNumber(s).digits == 0
    ensures !CheckPort(Some(s)) && !CheckServerId(Some(s)) && ReadPort(s) == None
    ensures !CheckPort(None) && !CheckServerId(None)
  {
    hide ScanNumber;
  }

  /** ... and it is needed: on its own the later read would take a negative number for a high port. */
  lemma UncheckedPortWraps(m: int)
    requires 1 <= m <= 65535
    ensures ReadPort(ToText(-m)) == Some(65536 - m) && !CheckPort(Some(ToText(-m)))
  {
    hide ScanNumber, ToText;
    TextScans(-m);
    assert (-m) % 0x1_0000 == 0x1_0000 - m;
  }
}
