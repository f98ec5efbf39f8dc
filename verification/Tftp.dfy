/**
  The TFTP server in octet mode (external/dnsmasq/src/tftp.c; sections 2 and 6 of RFC 1350): transfers that go on by
  acknowledgements and timeouts, and open files that transfers share.
 */
module Tftp {
  import opened Options

  /** Block numbers have 16 bits in a packet. */
  const NUMBERS: nat := 0x1_0000
  const MAX_BACKOFF := 5

  type Bytes = seq<int>

  /** A file is shared by transfers that ask for the same name and get the same file. */
  datatype Ident = Ident(dev: int, inode: int, name: string)

  datatype File = File(ident: Ident, content: Bytes, refs: nat)

  datatype Transfer = Transfer(file: nat, block: nat, offset: nat, blocksize: nat, timeout: int, backoff: nat)

  datatype Message = Ack(number: nat) | Error | Other

  datatype Packet = Oack | Data(number: nat, data: Bytes)

  // ----- what the blocks of a file are -----

  function Min(a: nat, b: nat): nat {
    if a < b then a else b
  }

  /** A file that fills its blocks exactly is followed by an empty one. */
  function Blocks(content: Bytes, blocksize: nat): nat
    requires blocksize > 0
  {
    |content| / blocksize + 1
  }

  lemma BlockStarts(content: Bytes, blocksize: nat, k: nat)
    requires blocksize > 0 && k > 0
    ensures (k - 1) * blocksize <= |content| <==> k <= Blocks(content, blocksize)
    ensures k < Blocks(content, blocksize) ==> k * blocksize <= |content|
    ensures k == Blocks(content, blocksize) ==> |content| < k * blocksize
  {
    var q := |content| / blocksize;
    assert q * blocksize <= |content| < (q + 1) * blocksize;
    if k - 1 <= q {
      MulLe(k - 1, q, blocksize);
    } else {
      MulLe(q + 1, k - 1, blocksize);
    }
    if k <= q {
      MulLe(k, q, blocksize);
    }
  }

  lemma MulLe(a: nat, b: nat, c: nat)
    requires a <= b
    ensures a * c <= b * c
  {}

  /** DATA block k of a file (section 2 of RFC 1350): all of them are full but the last. */
  function BlockOf(content: Bytes, blocksize: nat, k: nat): Bytes
    requires blocksize > 0 && 0 < k <= Blocks(content, blocksize)
  {
    BlockStarts(content, blocksize, k);
    content[(k - 1) * blocksize..Min(k * blocksize, |content|)]
  }

  /** The blocks put together are the file, and only the last one is short. */
  lemma {:induction false} BlocksMakeFile(content: Bytes, blocksize: nat, k: nat)
    requires blocksize > 0 && k <= Blocks(content, blocksize)
    ensures Joined(content, blocksize, k) == content[..Min(k * blocksize, |content|)]
    ensures k == Blocks(content, blocksize) ==> Joined(content, blocksize, k) == content
    ensures k > 0 ==> (|BlockOf(content, blocksize, k)| < blocksize <==> k == Blocks(content, blocksize))
  {
    if k > 0 {
      BlocksMakeFile(content, blocksize, k - 1);
      BlockStarts(content, blocksize, k);
      if k > 1 {
        BlockStarts(content, blocksize, k - 1);
      }
    }
  }

  function Joined(content: Bytes, blocksize: nat, k: nat): Bytes
    requires blocksize > 0 && k <= Blocks(content, blocksize)
  {
    if k == 0 then [] else Joined(content, blocksize, k - 1) + BlockOf(content, blocksize, k)
  }

  // ----- what a client makes of the packets -----

  function Number(k: nat): nat {
    k % NUMBERS
  }

  /** Packets of one file, as they may have been sent. */
  predicate Genuine(p: Packet, content: Bytes, blocksize: nat)
    requires blocksize > 0
  {
    p.Data? ==> exists k: nat | 0 < k <= Blocks(content, blocksize) ::
                  p.number == Number(k) && p.data == BlockOf(content, blocksize, k)
  }

  /** A client that has n blocks takes the next one and passes over all others, then it is done after a short one. */
  datatype Client = Client(got: Bytes, n: nat, done: bool)

  function Take(c: Client, p: Packet, blocksize: nat): Client {
    if c.done || p.Oack? || p.number != Number(c.n + 1) then c
    else Client(c.got + p.data, c.n + 1, |p.data| < blocksize)
  }

  function TakeAll(packets: seq<Packet>, blocksize: nat): Client {
    if packets == [] then Client([], 0, false)
    else Take(TakeAll(packets[..|packets| - 1], blocksize), packets[|packets| - 1], blocksize)
  }

  /** Blocks of the same number are the same. */
  predicate Unambiguous(content: Bytes, blocksize: nat)
    requires blocksize > 0
  {
    forall j: nat, k: nat | 0 < j <= Blocks(content, blocksize) && 0 < k <= Blocks(content, blocksize) && Number(j) == Number(k) ::
      BlockOf(content, blocksize, j) == BlockOf(content, blocksize, k)
  }

  /** No ambiguity arises until block numbers come round. */
  lemma FewBlocksUnambiguous(content: Bytes, blocksize: nat)
    requires blocksize > 0 && Blocks(content, blocksize) <= NUMBERS
    ensures Unambiguous(content, blocksize)
  {
    forall j: nat, k: nat | 0 < j <= Blocks(content, blocksize) && 0 < k <= Blocks(content, blocksize) && Number(j) == Number(k)
      ensures BlockOf(content, blocksize, j) == BlockOf(content, blocksize, k)
    {
      assert j == k;
    }
  }

  /** The client has the first part of the file, and is done when it has it all. */
  predicate ClientOk(c: Client, content: Bytes, blocksize: nat)
    requires blocksize > 0
  {
    && c.n <= Blocks(content, blocksize) && c.got == content[..Min(c.n * blocksize, |content|)]
    && (c.done <==> c.n == Blocks(content, blocksize)) && (c.done ==> c.got == content)
  }

  /** Taking the block that comes next. */
  lemma TakeNext(c: Client, p: Packet, content: Bytes, blocksize: nat)
    requires blocksize > 0 && ClientOk(c, content, blocksize) && !c.done
    requires p == Data(Number(c.n + 1), BlockOf(content, blocksize, c.n + 1))
    ensures ClientOk(Take(c, p, blocksize), content, blocksize) && Take(c, p, blocksize).n == c.n + 1
  {
    BlocksMakeFile(content, blocksize, c.n + 1);
    BlocksMakeFile(content, blocksize, c.n);
    assert Joined(content, blocksize, c.n + 1) == c.got + p.data;
  }

  lemma TakeKeeps(c: Client, p: Packet, content: Bytes, blocksize: nat)
    requires blocksize > 0 && Unambiguous(content, blocksize)
    requires ClientOk(c, content, blocksize) && Genuine(p, content, blocksize)
    ensures ClientOk(Take(c, p, blocksize), content, blocksize)
  {
    if !c.done && p.Data? && p.number == Number(c.n + 1) {
      var k: nat :| 0 < k <= Blocks(content, blocksize) && p.number == Number(k) && p.data == BlockOf(content, blocksize, k);
      assert BlockOf(content, blocksize, k) == BlockOf(content, blocksize, c.n + 1);
      TakeNext(c, p, content, blocksize);
    }
  }

  /**
    Whatever packets of the file arrive, in whatever order and however often, a client has the first part of the file,
    and all of it when it is done, unless two blocks that differ have the same number.
   */
  lemma {:induction false} ClientGetsFile(packets: seq<Packet>, content: Bytes, blocksize: nat)
    requires blocksize > 0 && Unambiguous(content, blocksize)
    requires forall i | 0 <= i < |packets| :: Genuine(packets[i], content, blocksize)
    ensures ClientOk(TakeAll(packets, blocksize), content, blocksize)
  {
    if packets != [] {
      ClientGetsFile(packets[..|packets| - 1], content, blocksize);
      TakeKeeps(TakeAll(packets[..|packets| - 1], blocksize), packets[|packets| - 1], content, blocksize);
    }
  }

  /** The first n blocks in order. */
  lemma {:induction false} InOrder(content: Bytes, blocksize: nat, n: nat) returns (packets: seq<Packet>)
    requires blocksize > 0 && n <= Blocks(content, blocksize)
    ensures forall i | 0 <= i < |packets| :: Genuine(packets[i], content, blocksize)
    ensures ClientOk(TakeAll(packets, blocksize), content, blocksize) && TakeAll(packets, blocksize).n == n
  {
    packets := [];
    if n > 0 {
      var front := InOrder(content, blocksize, n - 1);
      var p := Data(Number(n), BlockOf(content, blocksize, n));
      TakeNext(TakeAll(front, blocksize), p, content, blocksize);
      packets := front + [p];
      assert packets[..|packets| - 1] == front;
    }
  }

  /** If two blocks that differ have the same number, the client can be misled by packets of the file alone. */
  lemma AmbiguousMisleads(content: Bytes, blocksize: nat, j: nat, k: nat) returns (packets: seq<Packet>)
    requires blocksize > 0 && 0 < j <= Blocks(content, blocksize) && 0 < k <= Blocks(content, blocksize)
    requires Number(j) == Number(k) && BlockOf(content, blocksize, j) != BlockOf(content, blocksize, k)
    ensures forall i | 0 <= i < |packets| :: Genuine(packets[i], content, blocksize)
    ensures !ClientOk(TakeAll(packets, blocksize), content, blocksize)
  {
    var front := InOrder(content, blocksize, j - 1);
    var c := TakeAll(front, blocksize);
    var p, q := Data(Number(k), BlockOf(content, blocksize, k)), Data(Number(j), BlockOf(content, blocksize, j));
    packets := front + [p];
    assert packets[..|packets| - 1] == front;
    TakeNext(c, q, content, blocksize);
    Different(c.got, p.data, q.data);
  }

  lemma Different(a: Bytes, b: Bytes, c: Bytes)
    requires b != c
    ensures a + b != a + c
  {
    assert (a + b)[|a|..] == b && (a + c)[|a|..] == c;
  }

  // ----- a transfer -----

  /** The offset belongs to the block; block 0 is the acknowledgement of options. */
  predicate TransferOk(t: Transfer) {
    t.blocksize > 0 && t.offset == (if t.block == 0 then 0 else (t.block - 1) * t.blocksize)
  }

  datatype Block = Failed | Done | Send(packet: Packet)

  /** The packet that a transfer at block k sends. */
  function PacketAt(content: Bytes, blocksize: nat, k: nat): (p: Packet)
    requires blocksize > 0 && k <= Blocks(content, blocksize)
    ensures Genuine(p, content, blocksize)
  {
    if k == 0 then Oack else Data(Number(k), BlockOf(content, blocksize, k))
  }

  /** get_block */
  method GetBlock(t: Transfer, content: Bytes, readOk: bool) returns (b: Block)
    requires TransferOk(t)
    ensures b.Send? ==> t.block <= Blocks(content, t.blocksize) && b.packet == PacketAt(content, t.blocksize, t.block)
    ensures b.Done? <==> t.block > Blocks(content, t.blocksize)
    ensures b.Failed? <==> !readOk && 0 < t.block <= Blocks(content, t.blocksize)
  {
    if t.block == 0 {
      return Send(Oack);
    }
    BlockStarts(content, t.blocksize, t.block);
    if t.offset > |content| {
      return Done;
    }
    var size := |content| - t.offset;
    if size > t.blocksize {
      size := t.blocksize;
    }
    if !readOk {
      return Failed;
    }
    assert t.block * t.blocksize == t.offset + t.blocksize;
    return Send(Data(t.block % NUMBERS, content[t.offset..t.offset + size]));
  }

  /** A message from the client: an acknowledgement of the present block moves the transfer on, an error ends it. */
  function Heard(t: Transfer, m: Message, now: int): Transfer {
    if m.Ack? && m.number == Number(t.block) then
      t.(timeout := now, backoff := 0, block := t.block + 1, offset := if t.block != 0 then t.offset + t.blocksize else t.offset)
    else if m.Error? then t.(timeout := now, backoff := 100)
    else t
  }

  /**
    The block moves on by one if the present one is acknowledged, the offset with it; an error leaves it and makes
    the transfer due at once and too late to go on; anything else changes nothing.
   */
  lemma HeardOk(t: Transfer, m: Message, now: int)
    requires TransferOk(t)
    ensures var h := Heard(t, m, now);
            && TransferOk(h) && h.file == t.file && h.blocksize == t.blocksize
            && h.block == t.block + (if m.Ack? && m.number == Number(t.block) then 1 else 0)
            && (m.Error? ==> h.timeout == now && h.backoff > MAX_BACKOFF) && (h.block == t.block && !m.Error? ==> h == t)
  {}

  function Power2(n: nat): nat {
    if n == 0 then 1 else 2 * Power2(n - 1)
  }

  /** What comes of a transfer: it is sent a packet, or left alone, or it is at its end. */
  datatype Fate = Keeps(t: Transfer, sent: Option<Packet>) | Ends

  /** The transfer when a message has been heard, if there was one. */
  function Now(t: Transfer, m: Option<Message>, now: int): Transfer {
    if m.Some? then Heard(t, m.value, now) else t
  }

  /**
    A transfer moves on by being acknowledged and by nothing else. When its time has come it sends the block it is at,
    unless it is past the last block, has been silent too long or cannot read the file: then it ends.
   */
  predicate FateOk(t: Transfer, content: Bytes, m: Option<Message>, now: int, readOk: bool, fate: Fate) {
    var h := Now(t, m, now);
    && (fate.Keeps? ==> TransferOk(fate.t) && fate.t.file == t.file)
    && (now < h.timeout ==> fate == Keeps(h, None))
    && (now >= h.timeout && h.blocksize > 0 ==>
          if fate.Ends? then h.block > Blocks(content, h.blocksize) || h.backoff >= MAX_BACKOFF || (!readOk && h.block > 0)
          else
            && h.block <= Blocks(content, h.blocksize) && fate.sent == Some(PacketAt(content, h.blocksize, h.block))
            && fate.t == h.(timeout := h.timeout + 1 + Power2(h.backoff), backoff := h.backoff + 1)
            && h.backoff < MAX_BACKOFF && (readOk || h.block == 0))
  }

  /** One turn of check_tftp_listeners for one transfer. */
  method Turn(t: Transfer, content: Bytes, m: Option<Message>, now: int, readOk: bool) returns (fate: Fate)
    requires TransferOk(t)
    ensures FateOk(t, content, m, now, readOk, fate)
  {
    var h := t;
    if m.Some? {
      HeardOk(t, m.value, now);
      h := Heard(t, m.value, now);
    }
    if now < h.timeout {
      return Keeps(h, None);
    }
    var r := h.(timeout := h.timeout + 1 + Power2(h.backoff));
    var b := GetBlock(r, content, readOk);
    if !b.Send? || r.backoff + 1 > MAX_BACKOFF {
      return Ends;
    }
    return Keeps(r.(backoff := r.backoff + 1), Some(b.packet));
  }

  // ----- shared files -----

  function Holders(ts: seq<Transfer>, f: nat): nat {
    if ts == [] then 0 else Holders(ts[..|ts| - 1], f) + if ts[|ts| - 1].file == f then 1 else 0
  }

  lemma {:induction false} HoldersJoin(a: seq<Transfer>, b: seq<Transfer>, f: nat)
    ensures Holders(a + b, f) == Holders(a, f) + Holders(b, f)
  {
    if b == [] {
      assert a + b == a;
    } else {
      var n := |b| - 1;
      assert (a + b)[..|a + b| - 1] == a + b[..n];
      HoldersJoin(a, b[..n], f);
    }
  }

  lemma HoldersOne(t: Transfer, f: nat)
    ensures Holders([t], f) == if t.file == f then 1 else 0
  {
    assert [t][..0] == [];
  }

  lemma {:induction false} HoldersIn(ts: seq<Transfer>, i: nat)
    requires i < |ts|
    ensures Holders(ts, ts[i].file) > 0
  {
    if i < |ts| - 1 {
      HoldersIn(ts[..|ts| - 1], i);
    }
  }

  /** The transfers in hand when i of the old ones have had their turn. */
  function InHand(kept: seq<Transfer>, ts: seq<Transfer>, i: nat): seq<Transfer>
    requires i <= |ts|
  {
    kept + ts[i..]
  }

  /** Every file that is open is held by as many transfers as it counts, and by one at least. */
  predicate FilesOk(files: map<nat, File>, ts: seq<Transfer>, next: nat) {
    && (forall f: nat | f in files :: files[f].refs == Holders(ts, f) && files[f].refs > 0 && f < next)
    && (forall i | 0 <= i < |ts| :: ts[i].file in files)
  }

  /** A transfer that ends gives up its file. */
  function Released(files: map<nat, File>, f: nat): map<nat, File>
    requires f in files && files[f].refs > 0
  {
    if files[f].refs == 1 then files - {f} else files[f := files[f].(refs := files[f].refs - 1)]
  }

  lemma ReleasedOk(files: map<nat, File>, kept: seq<Transfer>, t: Transfer, rest: seq<Transfer>, next: nat)
    requires FilesOk(files, kept + ([t] + rest), next) && t.file in files
    ensures files[t.file].refs > 0 && FilesOk(Released(files, t.file), kept + rest, next)
  {
    forall f: nat ensures Holders(kept + ([t] + rest), f) == Holders(kept + rest, f) + if t.file == f then 1 else 0 {
      HoldersJoin(kept, [t] + rest, f);
      HoldersJoin([t], rest, f);
      HoldersJoin(kept, rest, f);
      HoldersOne(t, f);
    }
    forall i | 0 <= i < |kept + rest| ensures (kept + rest)[i].file in Released(files, t.file) {
      HoldersIn(kept + rest, i);
      var j := if i < |kept| then i else i + 1;
      assert (kept + ([t] + rest))[j] == (kept + rest)[i];
    }
  }

  /** A transfer that changes keeps its file. */
  lemma ChangedOk(files: map<nat, File>, kept: seq<Transfer>, t: Transfer, t': Transfer, rest: seq<Transfer>, next: nat)
    requires FilesOk(files, kept + ([t] + rest), next) && t'.file == t.file
    ensures FilesOk(files, (kept + [t']) + rest, next)
  {
    forall f: nat ensures Holders((kept + [t']) + rest, f) == Holders(kept + ([t] + rest), f) {
      HoldersJoin(kept, [t] + rest, f);
      HoldersJoin([t], rest, f);
      HoldersJoin(kept + [t'], rest, f);
      HoldersJoin(kept, [t'], f);
      HoldersOne(t, f);
      HoldersOne(t', f);
    }
    forall i | 0 <= i < |(kept + [t']) + rest| ensures ((kept + [t']) + rest)[i].file in files {
      assert (kept + ([t] + rest))[i].file == ((kept + [t']) + rest)[i].file;
    }
  }

  lemma AddedOk(files: map<nat, File>, files': map<nat, File>, ts: seq<Transfer>, t: Transfer, next: nat, next': nat)
    requires FilesOk(files, ts, next) && next <= next' && t.file < next' && t.file in files'
    requires files' == files[t.file := files'[t.file]]
    requires files'[t.file].refs == (if t.file in files then files[t.file].refs else 0) + 1
    requires t.file !in files ==> t.file == next
    ensures FilesOk(files', [t] + ts, next')
  {
    forall f: nat ensures Holders([t] + ts, f) == Holders(ts, f) + if t.file == f then 1 else 0 {
      HoldersJoin([t], ts, f);
      HoldersOne(t, f);
    }
    if t.file !in files {
      NotHeld(files, ts, t.file);
    }
  }

  lemma {:induction false} NotHeld(files: map<nat, File>, ts: seq<Transfer>, f: nat)
    requires f !in files && forall i | 0 <= i < |ts| :: ts[i].file in files
    ensures Holders(ts, f) == 0
  {
    if ts != [] {
      NotHeld(files, ts[..|ts| - 1], f);
    }
  }

  /** As much of the beginning of a file as fits a packet. */
  function FirstOf(content: Bytes, blocksize: nat): Bytes {
    if |content| < blocksize then content else content[..blocksize]
  }

  lemma FirstBlock(content: Bytes, blocksize: nat)
    requires blocksize > 0
    ensures PacketAt(content, blocksize, 1) == Data(1, FirstOf(content, blocksize))
  {}

  class Server {
    var transfers: seq<Transfer>
    var files: map<nat, File>
    var next: nat

    ghost predicate Valid()
      reads this
    {
      FilesOk(files, transfers, next) && forall i | 0 <= i < |transfers| :: TransferOk(transfers[i])
    }

    constructor ()
      ensures Valid() && transfers == []
    {
      transfers, files, next := [], map[], 0;
    }

    /** free_transfer, for a file that is counted once too often. */
    method Release(f: nat)
      requires f in files && files[f].refs > 0
      modifies this`files
      ensures files == Released(old(files), f)
    {
      files := files[f := files[f].(refs := files[f].refs - 1)];
      if files[f].refs == 0 {
        files := files - {f};
      }
    }

    /** The end of check_tftp_fileperm: a file that is open already is shared. */
    method OpenFile(ident: Ident, content: Bytes) returns (f: nat)
      requires Valid()
      modifies this`files, this`next
      ensures old(next) <= next && f < next && f in files && files == old(files)[f := files[f]]
      ensures files[f].ident == ident && files[f].refs == (if f in old(files) then old(files)[f].refs else 0) + 1
      ensures if f in old(files) then files[f].content == old(files)[f].content
              else f == old(next) && files[f].content == content
                   && forall i | 0 <= i < |transfers| :: old(files)[transfers[i].file].ident != ident
    {
      for i := 0 to |transfers|
        invariant files == old(files) && next == old(next)
        invariant forall j | 0 <= j < i :: files[transfers[j].file].ident != ident
      {
        if files[transfers[i].file].ident == ident {
          f := transfers[i].file;
          files := files[f := files[f].(refs := files[f].refs + 1)];
          return;
        }
      }
      f := next;
      files := files[f := File(ident, content, 1)];
      next := next + 1;
    }

    /** A request that is granted; the first packet acknowledges options or is block 1. */
    method Request(ident: Ident, content: Bytes, blocksize: nat, options: bool, now: int, readOk: bool) returns (sent: Option<Packet>)
      requires Valid() && blocksize > 0
      modifies this
      ensures Valid()
      ensures sent.None? <==> !options && !readOk
      ensures sent.None? ==> transfers == old(transfers)
      ensures sent.Some? ==> |transfers| == |old(transfers)| + 1 && transfers[1..] == old(transfers)
                             && transfers[0].blocksize == blocksize && Genuine(sent.value, files[transfers[0].file].content, blocksize)
                             && sent.value == (if options then Oack else Data(1, FirstOf(files[transfers[0].file].content, blocksize)))
                             && files[transfers[0].file].ident == ident
                             && transfers[0] == Transfer(transfers[0].file, if options then 0 else 1, 0, blocksize, now + 2, 1)
                             && (sent.value.Oack? <==> options)
    {
      var f := OpenFile(ident, content);
      var t := Transfer(f, if options then 0 else 1, 0, blocksize, now + 2, 1);
      AddedOk(old(files), files, old(transfers), t, old(next), next);
      sent := Begin(t, readOk);
    }

    /** The first packet is sent, or the file is given up. */
    method Begin(t: Transfer, readOk: bool) returns (sent: Option<Packet>)
      requires FilesOk(files, [t] + transfers, next) && t.file in files && TransferOk(t) && t.block <= 1
      requires forall i | 0 <= i < |transfers| :: TransferOk(transfers[i])
      modifies this`transfers, this`files
      ensures Valid() && (sent.None? <==> t.block == 1 && !readOk)
      ensures transfers == (if sent.Some? then [t] + old(transfers) else old(transfers))
      ensures sent.Some? ==>
                && files == old(files) && Genuine(sent.value, files[t.file].content, t.blocksize)
                && sent.value == if t.block == 0 then Oack else Data(1, FirstOf(files[t.file].content, t.blocksize))
    {
      var b := GetBlock(t, files[t.file].content, readOk);
      FirstBlock(files[t.file].content, t.blocksize);
      if b.Send? {
        transfers := [t] + transfers;
        return Some(b.packet);
      }
      assert [] + ([t] + transfers) == [t] + transfers;
      assert [] + transfers == transfers;
      ReleasedOk(files, [], t, transfers, next);
      Release(t.file);
      return None;
    }

    /** check_tftp_listeners: every transfer has its turn, and those that end are taken off the list. */
    method CheckListeners(messages: seq<Option<Message>>, readOk: seq<bool>, now: int) returns (fates: seq<Fate>)
      requires Valid() && |messages| == |readOk| == |transfers|
      modifies this`transfers, this`files
      ensures Valid() && |fates| == |old(transfers)| && transfers == Kept(fates)
      ensures FatesOk(old(transfers), old(files), messages, now, readOk, fates)
    {
      var ts, kept := transfers, [];
      fates := [];
      assert InHand(kept, ts, 0) == ts;
      ghost var before := files;
      for i := 0 to |ts|
        invariant |fates| == i && kept == Kept(fates) && TurnsOk(kept, ts, i) && Contents(before, files)
        invariant FatesOk(ts, before, messages, now, readOk, fates)
      {
        var fate := Serve(kept, ts, i, messages, readOk, now, before, fates);
        kept := kept + if fate.Keeps? then [fate.t] else [];
        fates := fates + [fate];
      }
      assert InHand(kept, ts, |ts|) == kept;
      transfers := kept;
    }

    /** The turn of transfer i, between those that have had theirs and those that have not. */
    method Serve(ghost kept: seq<Transfer>, ts: seq<Transfer>, i: nat, messages: seq<Option<Message>>, readOk: seq<bool>, now: int,
                 ghost before: map<nat, File>, ghost fates: seq<Fate>)
      returns (fate: Fate)
      requires |fates| == i < |ts| && TurnsOk(kept, ts, i) && Contents(before, files)
      requires FatesOk(ts, before, messages, now, readOk, fates)
      modifies this`files
      ensures TurnsOk(kept + if fate.Keeps? then [fate.t] else [], ts, i + 1) && Contents(before, files)
      ensures FatesOk(ts, before, messages, now, readOk, fates + [fate])
      ensures Kept(fates + [fate]) == Kept(fates) + if fate.Keeps? then [fate.t] else []
    {
      var t := ts[i];
      ghost var rest := ts[i + 1..];
      assert InHand(kept, ts, i) == kept + ([t] + rest);
      assert InHand(kept, ts, i)[|kept|] == t;
      fate := Turn(t, files[t.file].content, messages[i], now, readOk[i]);
      FatesOn(ts, before, messages, now, readOk, fates, fate);
      if fate.Keeps? {
        ChangedOk(files, kept, t, fate.t, rest, next);
      } else {
        ReleasedOk(files, kept, t, rest, next);
        assert kept + [] == kept;
        Release(t.file);
      }
    }

    ghost predicate TurnsOk(kept: seq<Transfer>, ts: seq<Transfer>, i: nat)
      reads this
    {
      && i <= |ts| && FilesOk(files, InHand(kept, ts, i), next)
      && (forall k | 0 <= k < |kept| :: TransferOk(kept[k])) && (forall k | i <= k < |ts| :: TransferOk(ts[k]))
    }
  }

  /** What becomes of each transfer that has had its turn. */
  predicate FatesOk(ts: seq<Transfer>, files: map<nat, File>, messages: seq<Option<Message>>, now: int, readOk: seq<bool>,
                    fates: seq<Fate>)
  {
    && |fates| <= |ts| == |messages| == |readOk|
    && (fates == []
        || (var i := |fates| - 1;
            && FatesOk(ts, files, messages, now, readOk, fates[..i])
            && ts[i].file in files && FateOk(ts[i], files[ts[i].file].content, messages[i], now, readOk[i], fates[i])))
  }

  lemma FatesOn(ts: seq<Transfer>, files: map<nat, File>, messages: seq<Option<Message>>, now: int, readOk: seq<bool>,
                fates: seq<Fate>, fate: Fate)
    requires FatesOk(ts, files, messages, now, readOk, fates) && |fates| < |ts|
    requires var i := |fates|;
             ts[i].file in files && FateOk(ts[i], files[ts[i].file].content, messages[i], now, readOk[i], fate)
    ensures FatesOk(ts, files, messages, now, readOk, fates + [fate])
    ensures Kept(fates + [fate]) == Kept(fates) + if fate.Keeps? then [fate.t] else []
  {
    assert (fates + [fate])[..|fates|] == fates;
  }

  /** Files may be closed, but what is in them stays. */
  predicate Contents(before: map<nat, File>, after: map<nat, File>) {
    forall f: nat | f in after :: f in before && after[f].content == before[f].content
  }

  /** The transfers that go on, in their order. */
  function Kept(fates: seq<Fate>): seq<Transfer> {
    if fates == [] then []
    else Kept(fates[..|fates| - 1]) + if fates[|fates| - 1].Keeps? then [fates[|fates| - 1].t] else []
  }
}
