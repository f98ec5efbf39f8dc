/**
  Hardware addresses and client ids as text in the lease file (external/dnsmasq/src/lease.c), written by
  lease_update_file and read again by lease_init.
 */
module LeaseText {
  import opened HexText
  import opened Options

  const ETHER := 1
  const CHADDR_MAX := 16
  const CLID_MAX := 255

  /** Octets in hexadecimal with colons between them. */
  function Octets(bytes: seq<Byte>): seq<Byte>
    decreases |bytes|, 0
  {
    if bytes == [] then [] else Hex(bytes[0]) + Further(bytes[1..])
  }

  function Further(bytes: seq<Byte>): seq<Byte>
    decreases |bytes|, 1
  {
    if bytes == [] then [] else [COLON] + Octets(bytes)
  }

  predicate TypeShown(hw: seq<Byte>, macType: nat) {
    macType != ETHER || hw == []
  }

  function HwText(hw: seq<Byte>, macType: nat): seq<Byte> {
    (if TypeShown(hw, macType) then Hex(macType) + [DASH] else []) + Octets(hw)
  }

  function ClidText(clid: seq<Byte>): seq<Byte> {
    if clid == [] then [STAR] else Octets(clid)
  }

  lemma {:induction false} OctetsSnoc(bytes: seq<Byte>, b: Byte)
    requires bytes != []
    ensures Octets(bytes + [b]) == Octets(bytes) + ([COLON] + Hex(b))
  {
    var h, t := Hex(bytes[0]), bytes[1..];
    assert (bytes + [b])[1..] == t + [b];
    if t == [] {
      assert t + [b] == [b];
      assert [b][1..] == [];
      assert Octets([b]) == Hex(b) + [] == Hex(b);
      assert Octets(bytes) == h + [] == h;
    } else {
      OctetsSnoc(t, b);
      assert h + ([COLON] + (Octets(t) + ([COLON] + Hex(b)))) == (h + ([COLON] + Octets(t))) + ([COLON] + Hex(b));
    }
  }

  lemma OctetsOne(b: Byte)
    ensures Octets([b]) == Hex(b)
  {
    assert [b][1..] == [];
    assert Hex(b) + [] == Hex(b);
  }

  lemma HexTwo(b: Byte)
    ensures |Hex(b)| == 2
  {
    if b >= 16 {
      assert HexDigits(b / 16) == [Digit(b / 16)];
    }
  }

  /** The text fits into the fields that lease_init reads: 764 characters for a client id of at most 255 octets. */
  lemma {:induction false} OctetsLength(bytes: seq<Byte>)
    ensures |Octets(bytes)| == if bytes == [] then 0 else 3 * |bytes| - 1
  {
    if bytes != [] {
      HexTwo(bytes[0]);
      OctetsLength(bytes[1..]);
    }
  }

  // ----- writing -----

  /** The octets written so far, with a colon unless they are all. */
  function Written(bytes: seq<Byte>, i: nat): seq<Byte>
    requires i <= |bytes|
  {
    Octets(bytes[..i]) + if 0 < i < |bytes| then [COLON] else []
  }

  lemma WrittenOn(bytes: seq<Byte>, i: nat)
    requires i < |bytes|
    ensures Written(bytes, i + 1) == Written(bytes, i) + (Hex(bytes[i]) + if i + 1 < |bytes| then [COLON] else [])
  {
    var colon := if i + 1 < |bytes| then [COLON] else [];
    assert bytes[..i + 1] == bytes[..i] + [bytes[i]];
    if i == 0 {
      assert bytes[..1] == [bytes[0]];
      OctetsOne(bytes[0]);
    } else {
      OctetsSnoc(bytes[..i], bytes[i]);
      assert (Octets(bytes[..i]) + ([COLON] + Hex(bytes[i]))) + colon == (Octets(bytes[..i]) + [COLON]) + (Hex(bytes[i]) + colon);
    }
  }

  /** The loop of lease_update_file over a hardware address. */
  method PrintOctets(bytes: seq<Byte>) returns (text: seq<Byte>)
    ensures text == Octets(bytes)
  {
    text := [];
    for i := 0 to |bytes|
      invariant text == Written(bytes, i)
    {
      WrittenOn(bytes, i);
      text := text + (Hex(bytes[i]) + if i != |bytes| - 1 then [COLON] else []);
    }
    assert bytes[..|bytes|] == bytes;
  }

  method PrintHw(hw: seq<Byte>, macType: nat) returns (text: seq<Byte>)
    ensures text == HwText(hw, macType)
  {
    text := PrintOctets(hw);
    if macType != ETHER || |hw| == 0 {
      text := Hex(macType) + [DASH] + text;
    } else {
      assert [] + text == text;
    }
  }

  /** The loop of lease_update_file over a client id. */
  method PrintClid(clid: seq<Byte>) returns (text: seq<Byte>)
    ensures text == ClidText(clid)
  {
    if |clid| == 0 {
      return [STAR];
    }
    text := [];
    var n := |clid| - 1;
    for i := 0 to n
      invariant text == Written(clid, i)
    {
      WrittenOn(clid, i);
      text := text + (Hex(clid[i]) + [COLON]);
    }
    WrittenOn(clid, n);
    assert Hex(clid[n]) + [] == Hex(clid[n]);
    text := text + Hex(clid[n]);
    assert clid[..|clid|] == clid;
  }

  // ----- reading -----

  /** A piece of text at a position. */
  predicate At(text: seq<Byte>, pos: nat, piece: seq<Byte>)
    decreases |piece|
  {
    piece == [] || (pos < |text| && text[pos] == piece[0] && At(text, pos + 1, piece[1..]))
  }

  lemma {:induction false} AtSplit(text: seq<Byte>, pos: nat, a: seq<Byte>, b: seq<Byte>)
    requires At(text, pos, a + b)
    ensures At(text, pos, a) && At(text, pos + |a|, b)
    decreases |a|
  {
    if a == [] {
      assert a + b == b;
    } else {
      assert (a + b)[1..] == a[1..] + b;
      AtSplit(text, pos + 1, a[1..], b);
    }
  }

  lemma {:induction false} AtSlice(text: seq<Byte>, pos: nat, piece: seq<Byte>)
    requires pos + |piece| <= |text|
    ensures At(text, pos, piece) <==> text[pos..pos + |piece|] == piece
    decreases |piece|
  {
    if piece != [] {
      AtSlice(text, pos + 1, piece[1..]);
      assert piece == [piece[0]] + piece[1..];
      assert text[pos..pos + |piece|] == [text[pos]] + text[pos + 1..pos + |piece|];
    }
  }

  lemma AtThree(text: seq<Byte>, pos: nat, a: seq<Byte>, b: seq<Byte>, c: seq<Byte>)
    requires At(text, pos, a + (b + c))
    ensures At(text, pos, a) && At(text, pos + |a|, b) && At(text, pos + |a| + |b|, c)
  {
    AtSplit(text, pos, a, b + c);
    AtSplit(text, pos + |a|, b, c);
  }

  function Known(bytes: seq<Byte>): (r: seq<Option<Byte>>)
    ensures |r| == |bytes|
  {
    seq(|bytes|, k requires 0 <= k < |bytes| => Some(bytes[k]))
  }

  lemma KnownOn(octets: seq<Option<Byte>>, bytes: seq<Byte>)
    requires bytes != []
    ensures octets + Known(bytes) == (octets + [Some(bytes[0])]) + Known(bytes[1..])
  {}

  /** A part made of digits, and the separator after it. */
  lemma PartIs(text: seq<Byte>, at: nat, part: seq<Byte>)
    requires At(text, at, part) && AllDigits(part) && at + |part| < |text| && IsSep(text[at + |part|])
    ensures FirstSep(text, at) == at + |part| && text[at..at + |part|] == part
  {
    AtSlice(text, at, part);
    forall k | at <= k < at + |part| ensures !IsSep(text[k]) {
      assert text[k] == part[k - at];
      assert DigitValue(part[k - at]).Some?;
    }
    FirstSepIs(text, at, at + |part|);
  }

  lemma OctetRead(b: Byte)
    ensures Octet(Hex(b)) == Some(b)
  {
    HexRead(b);
    assert DigitValue(Hex(b)[0]).Some?;
  }

  /** One octet and the separator after it. */
  lemma OneRead(text: seq<Byte>, p: Place, b: Byte, sep: Byte)
    requires At(text, p.at, Hex(b)) && At(text, p.at + |Hex(b)|, [sep]) && (sep == COLON || sep == NUL)
    ensures After(text, p) == p.(at := p.at + |Hex(b)| + 1, octets := p.octets + [Some(b)], ended := sep == NUL)
  {
    var r := p.at + |Hex(b)|;
    PartIs(text, p.at, Hex(b));
    OctetRead(b);
  }

  function Sep(bytes: seq<Byte>): Byte {
    if bytes == [] then NUL else COLON
  }

  function Others(bytes: seq<Byte>): seq<Byte> {
    if bytes == [] then [] else Octets(bytes) + [NUL]
  }

  lemma FirstOfOctets(bytes: seq<Byte>)
    requires bytes != []
    ensures Octets(bytes) + [NUL] == Hex(bytes[0]) + ([Sep(bytes[1..])] + Others(bytes[1..]))
  {
    var h, t := Hex(bytes[0]), bytes[1..];
    if t == [] {
      assert h + [] + [NUL] == h + ([NUL] + []);
    } else {
      assert h + ([COLON] + Octets(t)) + [NUL] == h + ([COLON] + (Octets(t) + [NUL]));
    }
  }

  /** The first of several octets in a text, what separates it from the others, and the others. */
  lemma AtFirst(text: seq<Byte>, pos: nat, bytes: seq<Byte>)
    requires bytes != [] && At(text, pos, Octets(bytes) + [NUL])
    ensures var h, t := Hex(bytes[0]), bytes[1..];
            At(text, pos, h) && At(text, pos + |h|, [Sep(t)]) && At(text, pos + |h| + 1, Others(t))
  {
    var h, t := Hex(bytes[0]), bytes[1..];
    FirstOfOctets(bytes);
    AtThree(text, pos, h, [Sep(t)], Others(t));
  }

  /** Octets that were printed are read again, wherever in the text they are. */
  lemma {:induction false} OctetsRead(text: seq<Byte>, maxlen: int, p: Place, bytes: seq<Byte>)
    requires At(text, p.at, Octets(bytes) + [NUL]) && !p.ended && (maxlen == -1 || |p.octets| + |bytes| <= maxlen)
    ensures Parse(text, maxlen, p) == Parsed(p.octets + Known(bytes), p.macType)
    decreases |bytes|
  {
    if bytes == [] {
      assert Octets(bytes) + [NUL] == [NUL];
      NothingRead(text, maxlen, p);
      assert p.octets + Known(bytes) == p.octets;
    } else {
      var t := bytes[1..];
      var q := FirstRead(text, maxlen, p, bytes);
      if t == [] {
        assert q.octets + Known(t) == q.octets;
      } else {
        OctetsRead(text, maxlen, q, t);
      }
    }
  }

  lemma FirstRead(text: seq<Byte>, maxlen: int, p: Place, bytes: seq<Byte>) returns (q: Place)
    requires bytes != [] && At(text, p.at, Octets(bytes) + [NUL]) && !p.ended && Goes(maxlen, |p.octets|)
    ensures Parse(text, maxlen, p) == Parse(text, maxlen, q)
    ensures |q.octets| == |p.octets| + 1 && q.macType == p.macType && (q.ended <==> bytes[1..] == [])
    ensures q.octets + Known(bytes[1..]) == p.octets + Known(bytes)
    ensures At(text, q.at, Others(bytes[1..]))
  {
    AtFirst(text, p.at, bytes);
    OneRead(text, p, bytes[0], Sep(bytes[1..]));
    KnownOn(p.octets, bytes);
    q := After(text, p);
  }

  lemma NothingRead(text: seq<Byte>, maxlen: int, p: Place)
    requires At(text, p.at, [NUL]) && !p.ended
    ensures Parse(text, maxlen, p) == Parsed(p.octets, p.macType)
  {
  }

  /** The type in front of a hardware address. */
  lemma TypeRead(text: seq<Byte>, p: Place, macType: nat)
    requires At(text, p.at, Hex(macType)) && At(text, p.at + |Hex(macType)|, [DASH]) && p.octets == [] && p.wanted
    ensures After(text, p) == p.(at := p.at + |Hex(macType)| + 1, wanted := false, macType := macType, ended := false)
  {
    var r := p.at + |Hex(macType)|;
    PartIs(text, p.at, Hex(macType));
    HexRead(macType);
  }

  lemma TypedRead(text: seq<Byte>, hw: seq<Byte>, macType: nat)
    requires At(text, 0, Hex(macType) + ([DASH] + (Octets(hw) + [NUL]))) && |hw| <= CHADDR_MAX
    ensures Parse(text, CHADDR_MAX, START) == Parsed(Known(hw), macType)
  {
    AtThree(text, 0, Hex(macType), [DASH], Octets(hw) + [NUL]);
    TypeRead(text, START, macType);
    var p := After(text, START);
    assert Parse(text, CHADDR_MAX, START) == Parse(text, CHADDR_MAX, p);
    OctetsRead(text, CHADDR_MAX, p, hw);
    assert [] + Known(hw) == Known(hw);
  }

  lemma UntypedRead(text: seq<Byte>, bytes: seq<Byte>, maxlen: int, want: bool)
    requires At(text, 0, Octets(bytes) + [NUL]) && |bytes| <= maxlen
    ensures Parse(text, maxlen, START.(wanted := want)) == Parsed(Known(bytes), 0)
  {
    OctetsRead(text, maxlen, START.(wanted := want), bytes);
    assert [] + Known(bytes) == Known(bytes);
  }

  lemma HwTextIs(hw: seq<Byte>, macType: nat)
    ensures HwText(hw, macType) + [NUL]
            == if TypeShown(hw, macType) then Hex(macType) + ([DASH] + (Octets(hw) + [NUL])) else Octets(hw) + [NUL]
  {}

  /** A hardware address of at most 16 octets is read as it was printed; so is its type, if it was shown. */
  lemma HwRead(text: seq<Byte>, hw: seq<Byte>, macType: nat)
    requires At(text, 0, HwText(hw, macType) + [NUL]) && |hw| <= CHADDR_MAX
    ensures Parse(text, CHADDR_MAX, START) == Parsed(Known(hw), if TypeShown(hw, macType) then macType else 0)
  {
    HwTextIs(hw, macType);
    if TypeShown(hw, macType) {
      TypedRead(text, hw, macType);
    } else {
      UntypedRead(text, hw, CHADDR_MAX, true);
    }
  }

  lemma StarIsNoClid(clid: seq<Byte>)
    ensures ClidText(clid) == [STAR] <==> clid == []
  {
    OctetsLength(clid);
  }

  // ----- there and back -----

  /** The type of a lease that was read: none given means Ethernet. */
  function TypeOf(macType: nat, len: nat): nat {
    if macType == 0 && len != 0 then ETHER else macType
  }

  /** The field as it is read into the buffer. */
  method Buffer(text: seq<Byte>) returns (buf: array<Byte>)
    ensures fresh(buf) && buf[..] == text + [NUL] && EndsAfter(buf[..], 0)
  {
    buf := new Byte[|text| + 1](k requires 0 <= k <= |text| => if k < |text| then text[k] else NUL);
    assert buf[..] == text + [NUL];
    assert buf[..][|text|] == NUL;
  }

  /**
    Writing a hardware address to the lease file and reading it again gives the same octets, and the same type
    unless octets of type 0 were written: these come back as Ethernet.
   */
  method HwRoundTrip(hw: seq<Byte>, macType: nat) returns (hw': seq<Byte>, macType': nat)
    requires |hw| <= CHADDR_MAX
    ensures hw' == hw
    ensures macType' == macType <==> !(macType == 0 && hw != [])
  {
    var text := PrintHw(hw, macType);
    var buf := Buffer(text);
    AtSlice(buf[..], 0, text + [NUL]);
    HwRead(buf[..], hw, macType);
    var n, mask, t := ParseHex(buf, CHADDR_MAX, true);
    hw' := buf[..n];
    macType' := TypeOf(t, n);
  }

  /** Writing a client id and reading it again gives the same octets; a missing one stays missing. */
  method ClidRoundTrip(clid: seq<Byte>) returns (clid': seq<Byte>)
    requires |clid| <= CLID_MAX
    ensures clid' == clid
  {
    var text := PrintClid(clid);
    StarIsNoClid(clid);
    if text == [STAR] {
      return [];
    }
    var buf := Buffer(text);
    AtSlice(buf[..], 0, text + [NUL]);
    UntypedRead(buf[..], clid, CLID_MAX, false);
    var n, mask, t := ParseHex(buf, CLID_MAX, false);
    clid' := buf[..n];
  }
}
