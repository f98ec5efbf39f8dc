/**
  parse_hex (external/dnsmasq/src/util.c): octets in hexadecimal, with the result written over the text that is read.
 */
module HexText {
  import opened Options

  type Byte = b: nat | b < 256

  const NUL: Byte := 0
  const PLUS: Byte := '+' as Byte
  const COLON: Byte := ':' as Byte
  const DASH: Byte := '-' as Byte
  const STAR: Byte := '*' as Byte
  const ZERO: Byte := '0' as Byte
  const WORD: nat := 0x1_0000_0000

  // ----- numbers in hexadecimal -----

  function DigitValue(b: Byte): (d: Option<nat>)
    ensures d.Some? ==> d.value < 16
  {
    if '0' as Byte <= b <= '9' as Byte then Some(b - '0' as Byte)
    else if 'a' as Byte <= b <= 'f' as Byte then Some(b - 'a' as Byte + 10)
    else if 'A' as Byte <= b <= 'F' as Byte then Some(b - 'A' as Byte + 10)
    else None
  }

  function Digit(d: nat): (b: Byte)
    requires d < 16
    ensures DigitValue(b) == Some(d)
  {
    if d < 10 then '0' as Byte + d else 'a' as Byte + (d - 10)
  }

  predicate AllDigits(s: seq<Byte>) {
    forall k | 0 <= k < |s| :: DigitValue(s[k]).Some?
  }

  function DigitsFrom(s: seq<Byte>, acc: nat): nat {
    if s == [] || DigitValue(s[0]).None? then acc else DigitsFrom(s[1..], acc * 16 + DigitValue(s[0]).value)
  }

  predicate Blank(b: Byte) {
    b == 32 || 9 <= b <= 13
  }

  function Unblanked(s: seq<Byte>): seq<Byte> {
    if s != [] && Blank(s[0]) then Unblanked(s[1..]) else s
  }

  /** strtol to base 16; a minus sign cannot occur in a part of the text. */
  function StrToL(s: seq<Byte>): nat {
    var t := Unblanked(s);
    var u := if t != [] && t[0] == PLUS then t[1..] else t;
    var digits := if |u| >= 3 && u[0] == ZERO && (u[1] == 'x' as Byte || u[1] == 'X' as Byte) && DigitValue(u[2]).Some?
                  then u[2..] else u;
    DigitsFrom(digits, 0)
  }

  function HexDigits(v: nat): (s: seq<Byte>)
    ensures s != [] && AllDigits(s)
  {
    if v < 16 then [Digit(v)] else HexDigits(v / 16) + [Digit(v % 16)]
  }

  /** A number in hexadecimal, of two digits at least. */
  function Hex(v: nat): (s: seq<Byte>)
    ensures s != [] && AllDigits(s)
  {
    if v < 16 then [ZERO] + HexDigits(v) else HexDigits(v)
  }

  lemma {:induction false} DigitsJoin(a: seq<Byte>, b: seq<Byte>, acc: nat)
    requires AllDigits(a)
    ensures DigitsFrom(a + b, acc) == DigitsFrom(b, DigitsFrom(a, acc))
  {
    if a == [] {
      assert a + b == b;
    } else {
      assert (a + b)[1..] == a[1..] + b;
      DigitsJoin(a[1..], b, acc * 16 + DigitValue(a[0]).value);
    }
  }

  lemma {:induction false} HexDigitsRead(v: nat)
    ensures DigitsFrom(HexDigits(v), 0) == v
  {
    if v >= 16 {
      HexDigitsRead(v / 16);
      DigitsJoin(HexDigits(v / 16), [Digit(v % 16)], 0);
    }
  }

  /** What was printed is read as the same number. */
  lemma HexRead(v: nat)
    ensures StrToL(Hex(v)) == v
  {
    var s := Hex(v);
    assert DigitValue(s[0]).Some? && !Blank(s[0]) && s[0] != PLUS;
    if |s| >= 2 {
      assert DigitValue(s[1]).Some?;
    }
    HexDigitsRead(v);
    if v < 16 {
      DigitsJoin([ZERO], HexDigits(v), 0);
    }
  }

  // ----- the parts of a text -----

  predicate IsSep(b: Byte) {
    b == NUL || b == COLON || b == DASH
  }

  /** The first separator from `at` on; the text ends with a NUL or with the sequence. */
  function FirstSep(text: seq<Byte>, at: nat): (r: nat)
    requires at <= |text|
    ensures at <= r <= |text|
    decreases |text| - at
  {
    if at == |text| || IsSep(text[at]) then at else FirstSep(text, at + 1)
  }

  predicate EndAt(text: seq<Byte>, r: nat)
    requires r <= |text|
  {
    r == |text| || text[r] == NUL
  }

  lemma {:induction false} FirstSepIs(text: seq<Byte>, at: nat, r: nat)
    requires at <= r <= |text| && (forall k | at <= k < r :: !IsSep(text[k])) && (r == |text| || IsSep(text[r]))
    ensures FirstSep(text, at) == r
    decreases r - at
  {
    if at < r {
      FirstSepIs(text, at + 1, r);
    }
  }

  lemma {:induction false} FirstSepFinds(text: seq<Byte>, at: nat)
    requires at <= |text|
    ensures var r := FirstSep(text, at);
            (r == |text| || IsSep(text[r])) && forall k | at <= k < r :: !IsSep(text[k])
    decreases |text| - at
  {
    if at < |text| && !IsSep(text[at]) {
      FirstSepFinds(text, at + 1);
    }
  }

  /** The octets of a text, None for a wildcard, and the type in front of them. */
  datatype Parsed = Parsed(octets: seq<Option<Byte>>, macType: nat)

  predicate Goes(maxlen: int, n: nat) {
    maxlen == -1 || n < maxlen
  }

  function Octet(part: seq<Byte>): Option<Byte> {
    if part == [STAR] then None else Some(StrToL(part) % 256)
  }

  /** Where parse_hex is: what it has read, what is still wanted, and whether the text is at its end. */
  datatype Place = Place(at: nat, octets: seq<Option<Byte>>, wanted: bool, macType: nat, ended: bool)

  /** The place after one part of the text. */
  function After(text: seq<Byte>, p: Place): (q: Place)
    requires p.at <= |text|
    ensures q.at == FirstSep(text, p.at) + 1 && q.ended == EndAt(text, FirstSep(text, p.at))
  {
    var r := FirstSep(text, p.at);
    var q := p.(at := r + 1, ended := EndAt(text, r));
    if r == p.at then q
    else if r < |text| && text[r] == DASH && p.octets == [] && p.wanted then q.(wanted := false, macType := StrToL(text[p.at..r]))
    else q.(octets := p.octets + [Octet(text[p.at..r])])
  }

  /** What parse_hex makes of the text from a place on: all of its octets and its type. */
  function Parse(text: seq<Byte>, maxlen: int, p: Place): Parsed
    decreases |text| - p.at
  {
    if p.ended || !Goes(maxlen, |p.octets|) || p.at > |text| then Parsed(p.octets, p.macType)
    else Parse(text, maxlen, After(text, p))
  }

  const START := Place(0, [], true, 0, false)

  function Mask(octets: seq<Option<Byte>>): nat {
    if octets == [] then 0 else NextMask(Mask(octets[..|octets| - 1]), octets[|octets| - 1].None?)
  }

  function NextMask(mask: nat, wild: bool): nat {
    (2 * mask + if wild then 1 else 0) % WORD
  }

  lemma MaskOn(octets: seq<Option<Byte>>, o: Option<Byte>)
    ensures Mask(octets + [o]) == NextMask(Mask(octets), o.None?)
  {
    assert (octets + [o])[..|octets|] == octets;
  }

  // ----- parse_hex -----

  predicate EndsAfter(text: seq<Byte>, at: nat) {
    exists k | at <= k < |text| :: text[k] == NUL
  }

  /** The scan for the end of a part. */
  method ScanSep(buf: array<Byte>, at: nat) returns (r: nat)
    requires EndsAfter(buf[..], at)
    ensures r == FirstSep(buf[..], at) && r < buf.Length && (buf[r] == NUL || EndsAfter(buf[..], r + 1))
  {
    r := at;
    while !IsSep(buf[r])
      invariant at <= r < buf.Length && EndsAfter(buf[..], r) && FirstSep(buf[..], r) == FirstSep(buf[..], at)
      decreases buf.Length - r
    {
      r := r + 1;
    }
  }

  /** What is in the buffer after the first n octets: they are in front, and what is still to be read is untouched. */
  predicate Held(buf: seq<Byte>, text: seq<Byte>, at: nat, octets: seq<Option<Byte>>) {
    && |buf| == |text| && |octets| <= at <= |text| && buf[at..] == text[at..]
    && forall k | 0 <= k < |octets| && octets[k].Some? :: buf[k] == octets[k].value
  }

  lemma SepSame(buf: seq<Byte>, text: seq<Byte>, at: nat)
    requires |buf| == |text| && at <= |text| && buf[at..] == text[at..]
    ensures FirstSep(buf, at) == FirstSep(text, at) && (EndsAfter(text, at) <==> EndsAfter(buf, at))
    ensures var r := FirstSep(text, at); buf[at..r] == text[at..r] && (r < |text| ==> buf[r] == text[r])
  {
    assert forall k | at <= k < |text| :: buf[k] == buf[at..][k - at] && text[k] == text[at..][k - at];
    FirstSepFinds(text, at);
    FirstSepIs(buf, at, FirstSep(text, at));
  }

  /** The end of a part is marked in the buffer, and what comes after is still untouched. */
  lemma HeldOn(buf: seq<Byte>, after: seq<Byte>, text: seq<Byte>, at: nat, octets: seq<Option<Byte>>, r: nat)
    requires Held(buf, text, at, octets) && at <= r < |text| && (after == buf || after == buf[r := NUL])
    ensures Held(after, text, r + 1, octets)
  {
    assert forall k | r < k < |text| :: after[k] == buf[at..][k - at] && text[k] == text[at..][k - at];
  }

  /** One octet goes to the front of the buffer; a wildcard leaves it as it is. */
  method PutOctet(buf: array<Byte>, at: nat, r: nat, n: nat, ghost text: seq<Byte>, ghost octets: seq<Option<Byte>>)
    returns (wild: bool)
    requires Held(buf[..], text, at, octets) && n == |octets| && at < r < |text| && buf[at..r] == text[at..r]
    modifies buf
    ensures Held(buf[..], text, r + 1, octets + [Octet(text[at..r])])
    ensures wild == Octet(text[at..r]).None?
  {
    var part := buf[at..r];
    HeldOn(buf[..], buf[..][r := NUL], text, at, octets, r);
    buf[r] := NUL;
    wild := part == [STAR];
    if !wild {
      ghost var before := buf[..];
      buf[n] := StrToL(part) % 256;
      assert buf[r + 1..] == before[r + 1..];
    }
  }

  /** parse_hex with the same buffer for input and output. */
  method ParseHex(buf: array<Byte>, maxlen: int, want: bool) returns (n: nat, mask: nat, macType: nat)
    requires EndsAfter(buf[..], 0) && maxlen >= -1
    modifies buf
    ensures var p := Parse(old(buf[..]), maxlen, START.(wanted := want));
            && n == |p.octets| <= buf.Length && macType == p.macType && mask == Mask(p.octets)
            && forall k | 0 <= k < n && p.octets[k].Some? :: buf[k] == p.octets[k].value
  {
    ghost var text, p := buf[..], START.(wanted := want);
    n, mask, macType := 0, 0, 0;
    var at, limit, wanted := 0, maxlen, want;
    while limit == -1 || n < limit
      invariant Held(buf[..], text, at, p.octets) && Parse(text, maxlen, p) == Parse(text, maxlen, START.(wanted := want))
      invariant p == Place(at, p.octets, wanted, macType, p.ended) && n == |p.octets| && mask == Mask(p.octets)
      invariant if p.ended then limit != -1 && n >= limit else limit == maxlen && EndsAfter(text, at)
      decreases buf.Length - at
    {
      var n0, ended := n, false;
      ghost var q := After(text, p);
      at, n, wanted, macType, mask, ended := ReadPart(buf, at, n, wanted, macType, mask, text, p);
      if ended {
        limit := n0;
      }
      p := q;
    }
  }

  /** The part that comes next is in the buffer as it was in the text. */
  method FindPart(buf: array<Byte>, at: nat, ghost text: seq<Byte>) returns (r: nat)
    requires buf.Length == |text| && at <= |text| && buf[at..] == text[at..] && EndsAfter(text, at)
    ensures at <= r < |text| && r == FirstSep(text, at) && buf[at..r] == text[at..r] && buf[r] == text[r]
    ensures EndAt(text, r) || EndsAfter(text, r + 1)
  {
    SepSame(buf[..], text, at);
    r := ScanSep(buf, at);
    assert buf[..][at..] == buf[at..];
    assert buf[..][r + 1..] == buf[at..][r + 1 - at..];
    SepSame(buf[..], text, r + 1);
  }

  /** One part of the text, in place. */
  method ReadPart(buf: array<Byte>, at: nat, n: nat, wanted: bool, macType: nat, mask: nat, ghost text: seq<Byte>, ghost p: Place)
    returns (at': nat, n': nat, wanted': bool, macType': nat, mask': nat, ended': bool)
    requires p == Place(at, p.octets, wanted, macType, false) && n == |p.octets| && mask == Mask(p.octets)
    requires EndsAfter(text, at) && Held(buf[..], text, at, p.octets)
    modifies buf
    ensures var q := After(text, p);
            && q == Place(at', q.octets, wanted', macType', ended') && n' == |q.octets| && mask' == Mask(q.octets)
            && at < at' && Held(buf[..], text, at', q.octets) && (ended' || EndsAfter(text, at'))
  {
    var r := FindPart(buf, at, text);
    at', n', wanted', macType', mask', ended' := r + 1, n, wanted, macType, mask, buf[r] == NUL;
    if r == at {
      HeldOn(buf[..], buf[..], text, at, p.octets, r);
    } else if buf[r] == DASH && n == 0 && wanted {
      HeldOn(buf[..], buf[..][r := NUL], text, at, p.octets, r);
      macType', wanted' := StrToL(buf[at..r]), false;
      buf[r] := NUL;
    } else {
      MaskOn(p.octets, Octet(text[at..r]));
      var wild := PutOctet(buf, at, r, n, text, p.octets);
      n', mask' := n + 1, NextMask(mask, wild);
    }
  }
}
