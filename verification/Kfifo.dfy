// clib/kfifo.c, one caller at a time: a byte queue in a buffer whose counters
// run free, wrap at 2^32, and are never reset. A call is an uninterrupted run of
// the protocol that two threads may interleave.
module Kfifo {
  import opened Bits
  import opened KfifoCalls
  import opened KfifoProtocol
  import opened MachineInts
  import opened MinMax
  import opened NextPower
  import opened Ring

  // memcpy of n bytes between different buffers
  method Memcpy(dst: array<Byte>, dstOff: nat, src: array<Byte>, srcOff: nat, n: nat)
    requires dst != src && dstOff + n <= dst.Length && srcOff + n <= src.Length
    modifies dst
    ensures forall i :: 0 <= i < dst.Length ==>
              dst[i] == if dstOff <= i < dstOff + n then src[srcOff + i - dstOff] else old(dst[i])
  {
    forall i | 0 <= i < n {
      dst[dstOff + i] := src[srcOff + i];
    }
  }

  lemma SizeFits(n: int, request: nat)
    requires LeastPower(n, request) && request <= 0x4000_0000
    ensures n > 0 && IsSize(n)
  {
    Pow2Values();
    var k: nat :| n == Pow2(k);
    assert n <= Pow2(30);
    if k > 31 {
      Pow2Monotonic(31, k);
    }
  }

  class Kfifo {
    var buf: array<Byte>
    var size: nat
    var inPos: nat
    var outPos: nat
    // all bytes ever put and got
    ghost var accepted: seq<Byte>
    ghost var delivered: seq<Byte>

    ghost function View(): State
      reads this, buf
    {
      State(buf[..], inPos, outPos, Producer.Rest, Consumer.Rest, accepted, delivered)
    }

    ghost predicate Valid()
      reads this, buf
    {
      buf.Length == size && Inv(View())
    }

    // The bytes put and not yet got.
    ghost function Held(): seq<Byte>
      requires Valid()
      reads this, buf
    {
      Queue(View())
    }

    // The part of kfifo_init that fills in the structure (clib/kfifo.c:35-48),
    // for a buffer of n bytes.
    constructor (n: nat)
      requires n == 0 || IsSize(n)
      ensures Valid() && accepted == delivered == [] && size == n && fresh(buf)
    {
      buf := new Byte[n](_ => 0);
      size := n;
      inPos, outPos := 0, 0;
      accepted, delivered := [], [];
    }

    // kfifo_put (clib/kfifo.c:58-73)
    method Put(data: array<Byte>, request: nat) returns (len: nat)
      requires Valid() && data != buf && request <= data.Length && request < WORD
      modifies this, buf
      ensures Valid() && buf == old(buf) && size == old(size)
      ensures len == Min(request, size - |old(Held())|)
      ensures Held() == old(Held()) + data[..len] && delivered == old(delivered)
      ensures Leads(old(View()), PutSteps(data[..request], len), View())
    {
      ghost var s := View();
      CountersAgree(s);
      len := Min(request, Wrap(size - inPos + outPos));
      CopyIn(data, len);
      inPos := Wrap(inPos + len);
      accepted := accepted + data[..len];
      PutAlone(s, data[..], request, len, buf[..]);
    }

    lemma CountersAgree(s: State)
      requires Valid() && s == View()
      ensures Wrap(size - inPos + outPos) == size - |Held()|
      ensures Wrap(inPos - outPos) == |Held()|
    {
      if size > 0 {
        WrapDifference(|delivered|, |accepted|, size);
        WrapDifference(|accepted|, |delivered|, 0);
      }
    }

    // The copies of kfifo_put (clib/kfifo.c:64-67)
    method CopyIn(data: array<Byte>, len: nat)
      requires buf.Length == size && if size == 0 then inPos == 0 else IsSize(size)
      requires data != buf && len <= data.Length && len <= size
      modifies buf
      ensures CopiedFrom(old(buf[..]), buf[..], Start(inPos, size), data[..], 0, len)
    {
      StartInBuffer(inPos, size);
      var start := BitAnd(inPos, Wrap(size - 1));
      var l := Min(len, Wrap(size - start));
      ghost var b, d := buf[..], data[..];
      Memcpy(buf, start, data, 0, l);
      Memcpy(buf, 0, data, l, len - l);
      TwoWrites(b, buf[..], start, d, l, len);
    }

    // kfifo_get (clib/kfifo.c:75-90)
    method Get(data: array<Byte>, request: nat) returns (len: nat)
      requires Valid() && data != buf && request <= data.Length && request < WORD
      modifies this, data
      ensures Valid() && buf == old(buf) && size == old(size)
      ensures len == Min(request, |old(Held())|)
      ensures data[..len] + Held() == old(Held()) && data[len..] == old(data[len..]) && accepted == old(accepted)
      ensures Leads(old(View()), GetSteps(old(data[..request]), len), View())
    {
      ghost var s, scratch := View(), data[..];
      CountersAgree(s);
      len := Min(request, Wrap(inPos - outPos));
      CopyOut(data, len);
      outPos := Wrap(outPos + len);
      delivered := delivered + data[..len];
      GetAlone(s, scratch, request, len, data[..]);
      assert scratch[..request] == old(data[..request]);
    }

    // The copies of kfifo_get (clib/kfifo.c:81-84)
    method CopyOut(data: array<Byte>, len: nat)
      requires buf.Length == size && if size == 0 then outPos == 0 else IsSize(size)
      requires data != buf && len <= data.Length && len <= size
      modifies data
      ensures data[len..] == old(data[len..])
      ensures Fetched(buf[..], outPos, old(data[..]), data[..], 0, len)
    {
      ghost var c := data[..];
      StartInBuffer(outPos, size);
      var start := BitAnd(outPos, Wrap(size - 1));
      var l := Min(len, Wrap(size - start));
      Memcpy(data, 0, buf, start, l);
      Memcpy(data, l, buf, 0, len - l);
      TwoReads(buf[..], outPos, start, c, data[..], l, len);
    }
  }

  // The first copy ends where the buffer ends, and the second starts over.
  lemma TwoWrites(b: seq<Byte>, b': seq<Byte>, start: nat, data: seq<Byte>, l: nat, len: nat)
    requires start <= |b| == |b'| && len <= |b| && len <= |data| && l == Min(len, |b| - start)
    requires forall x :: 0 <= x < |b| ==>
               b'[x] == if x < len - l then data[l + x]
                        else if start <= x < start + l then data[x - start]
                        else b[x]
    ensures CopiedFrom(b, b', start, data, 0, len)
  {
  }

  lemma TwoReads(b: seq<Byte>, pos: nat, start: nat, c: seq<Byte>, g: seq<Byte>, l: nat, len: nat)
    requires start == Start(pos, |b|) <= |b| && l == Min(len, |b| - start)
    requires len <= |b| && len <= |c| == |g|
    requires forall i :: 0 <= i < |g| ==> g[i] == if i < l then b[start + i] else if i < len then b[i - l] else c[i]
    ensures Fetched(b, pos, c, g, 0, len)
  {
    forall i | 0 <= i < |g|
      ensures FetchedAt(b, pos, c, g, 0, len, i)
    {
    }
  }

  lemma StartBelow(pos: nat, size: nat)
    requires IsSize(size)
    ensures Start(pos, size) < size
  {
    var k :| 0 <= k <= 31 && size == Pow2(k);
    AndMaskIsMod(pos, k);
  }

  // Where the copies start, and how far it is from there to the end.
  lemma StartInBuffer(pos: nat, size: nat)
    requires if size == 0 then pos == 0 else IsSize(size)
    ensures var start := BitAnd(pos, Wrap(size - 1));
            Wrap(size - start) == size - start && start == Start(pos, size) <= size
  {
    if size > 0 {
      StartBelow(pos, size);
    }
  }

  lemma PutAlone(s: State, data: seq<Byte>, request: nat, len: nat, b: seq<Byte>)
    requires Inv(s) && s.producer.Rest? && request <= |data| && request < WORD
    requires len == Min(request, |s.buf| - |Queue(s)|)
    requires CopiedFrom(s.buf, b, Start(s.inPos, |s.buf|), data, 0, len)
    ensures var t := s.(buf := b, inPos := Wrap(s.inPos + len), accepted := s.accepted + data[..len]);
            Inv(t) && Queue(t) == Queue(s) + data[..len] && Leads(s, PutSteps(data[..request], len), t)
  {
    var d := data[..request];
    assert d[..len] == data[..len];
    PutBeginAlone(s, d, len);
    PutIsRun(s, d, len, b);
    LeadsKeepsInv(s, PutSteps(d, len), s.(buf := b, inPos := Wrap(s.inPos + len), accepted := s.accepted + d[..len]));
  }

  lemma GetAlone(s: State, scratch: seq<Byte>, request: nat, len: nat, g: seq<Byte>)
    requires Inv(s) && s.consumer.Rest? && request <= |scratch| && request < WORD
    requires len == Min(request, |Queue(s)|) && Fetched(s.buf, s.outPos, scratch, g, 0, len)
    ensures var t := s.(outPos := Wrap(s.outPos + len), delivered := s.delivered + g[..len]);
            Inv(t) && g[..len] + Queue(t) == Queue(s) && Leads(s, GetSteps(scratch[..request], len), t)
  {
    var c, d := scratch[..request], g[..request];
    FetchedPrefix(s.buf, s.outPos, scratch, g, len, request);
    assert d[..len] == g[..len];
    GetBeginAlone(s, c, len);
    GetIsRun(s, c, len, d);
    var t := s.(outPos := Wrap(s.outPos + len), delivered := s.delivered + d[..len]);
    DeliveredNext(s, GetSteps(c, len), t, d[..len]);
  }

  lemma FetchedPrefix(b: seq<Byte>, pos: nat, c: seq<Byte>, g: seq<Byte>, len: nat, n: nat)
    requires Fetched(b, pos, c, g, 0, len) && len <= n <= |c|
    ensures Fetched(b, pos, c[..n], g[..n], 0, len)
  {
    var d, h := c[..n], g[..n];
    forall i | 0 <= i < n
      ensures FetchedAt(b, pos, d, h, 0, len, i)
    {
      assert FetchedAt(b, pos, c, g, 0, len, i);
    }
  }

  // What a run adds to the delivered bytes was at the front of the queue.
  lemma DeliveredNext(s: State, actions: seq<Action>, t: State, got: seq<Byte>)
    requires Inv(s) && Leads(s, actions, t) && t.accepted == s.accepted && t.delivered == s.delivered + got
    ensures Inv(t) && got + Queue(t) == Queue(s)
  {
    LeadsKeepsInv(s, actions, t);
    assert t.delivered == s.accepted[..|t.delivered|];
    assert got == t.delivered[|s.delivered|..];
  }

  // kfifo_init (clib/kfifo.c:31-49) for every unsigned int, with allocations
  // succeeding unless they ask for more than any block can have.
  method KfifoInit(request: nat) returns (fifo: Kfifo?)
    requires request < WORD
    ensures fifo == null <==> 0x4000_0000 < request <= 0x8000_0000
    ensures fifo != null ==> fresh(fifo) && fresh(fifo.buf) && fifo.Valid() && fifo.Held() == []
    ensures fifo != null ==> (LeastPower(fifo.size, request) <==> request <= 0x4000_0000)
    ensures request > 0x8000_0000 ==> fifo != null && fifo.size == 0
  {
    var n := NextPowerOfTwo(Int32(request));
    if request <= 0x4000_0000 {
      SizeFits(n, request);
    }
    var bufSize := ToSize(n);
    if bufSize > PTRDIFF_MAX {
      return null;
    }
    fifo := new Kfifo(bufSize);
  }
}
