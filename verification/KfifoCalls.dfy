// A call of kfifo_put or kfifo_get that is not interrupted, as a run of the
// protocol: the two memcpy calls are the copying steps, one byte after the other.
module KfifoCalls {
  import opened Bits
  import opened KfifoProtocol
  import opened MinMax
  import opened Ring

  // Taking the steps of actions, one after the other, leads from s to t.
  ghost predicate Leads(s: State, actions: seq<Action>, t: State)
    decreases |actions|
  {
    if actions == [] then s == t
    else Enabled(s, actions[0]) && Leads(Apply(s, actions[0]), actions[1..], t)
  }

  lemma {:induction false} LeadsKeepsInv(s: State, actions: seq<Action>, t: State)
    requires Inv(s) && Leads(s, actions, t)
    ensures Inv(t)
    decreases |actions|
  {
    if actions != [] {
      StepKeepsInv(s, actions[0]);
      LeadsKeepsInv(Apply(s, actions[0]), actions[1..], t);
    }
  }

  lemma {:induction false} LeadsOn(s: State, a: seq<Action>, t: State, b: seq<Action>, u: State)
    requires Leads(s, a, t) && Leads(t, b, u)
    ensures Leads(s, a + b, u)
    decreases |a|
  {
    if a == [] {
      assert a + b == b;
    } else {
      assert (a + b)[1..] == a[1..] + b;
      LeadsOn(Apply(s, a[0]), a[1..], t, b, u);
    }
  }

  // Where in the copied bytes the one for slot x is, if it is copied at all.
  function Back(x: int, start: int, size: int): int {
    if x >= start then x - start else x + size - start
  }

  // b' is b with the bytes k up to len of data copied to the slots from start on,
  // going round at the end.
  ghost predicate CopiedFrom(b: seq<Byte>, b': seq<Byte>, start: int, data: seq<Byte>, k: nat, len: nat) {
    && |b'| == |b| && len <= |data|
    && forall x :: 0 <= x < |b| ==>
         b'[x] == if k <= Back(x, start, |b|) < len then data[Back(x, start, |b|)] else b[x]
  }

  lemma CopyIndexBack(pos: nat, len: nat, i: nat, size: nat)
    requires IsSize(size) && i < len <= size
    ensures 0 <= Start(pos, size) < size && 0 <= CopyIndex(pos, len, i, size) < size
    ensures Back(CopyIndex(pos, len, i, size), Start(pos, size), size) == i
  {
    var k :| 0 <= k <= 31 && size == Pow2(k);
    AndMaskIsMod(pos, k);
  }

  // The copies may be made one by one.
  lemma CopyOne(b: seq<Byte>, b': seq<Byte>, start: nat, data: seq<Byte>, k: nat, len: nat, index: nat)
    requires start < |b| && index < |b| && k < len && Back(index, start, |b|) == k
    requires CopiedFrom(b, b', start, data, k, len)
    ensures CopiedFrom(b[index := data[k]], b', start, data, k + 1, len)
  {
    var c := b[index := data[k]];
    forall x | 0 <= x < |b|
      ensures b'[x] == if k + 1 <= Back(x, start, |b|) < len then data[Back(x, start, |b|)] else c[x]
    {
    }
  }

  ghost function Span(k: nat, len: nat): (r: set<nat>)
    ensures forall i: nat :: i in r <==> k <= i < len
    decreases len - k
  {
    if k >= len then {} else {k} + Span(k + 1, len)
  }

  ghost function PutCopies(k: nat, len: nat): seq<Action>
    decreases len - k
  {
    if k >= len then [] else [PutCopy(k)] + PutCopies(k + 1, len)
  }

  // s with c in the buffer and the bytes todo of data still to be copied
  ghost function PuttingState(s: State, c: seq<Byte>, data: seq<Byte>, len: nat, todo: set<nat>): State {
    s.(buf := c, producer := Writing(data, len, todo))
  }

  lemma {:induction false} PutCopiesLead(s: State, data: seq<Byte>, k: nat, len: nat, c: seq<Byte>, b: seq<Byte>)
    requires (|c| == 0 || IsSize(|c|)) && k <= len <= |c| && CopiedFrom(c, b, Start(s.inPos, |c|), data, k, len)
    ensures Leads(PuttingState(s, c, data, len, Span(k, len)), PutCopies(k, len), PuttingState(s, b, data, len, {}))
    decreases len - k
  {
    if k == len {
      assert b == c;
    } else {
      var index := CopyIndex(s.inPos, len, k, |c|);
      CopyIndexBack(s.inPos, len, k, |c|);
      CopyOne(c, b, Start(s.inPos, |c|), data, k, len, index);
      assert Span(k, len) - {k} == Span(k + 1, len);
      PutCopiesLead(s, data, k + 1, len, c[index := data[k]], b);
      assert PutCopies(k, len)[1..] == PutCopies(k + 1, len);
    }
  }

  ghost function PutSteps(data: seq<Byte>, len: nat): seq<Action> {
    [PutBegin(data)] + PutCopies(0, len) + [PutEnd]
  }

  // It is the producer's turn to begin a call that will publish len bytes.
  ghost predicate CanPut(s: State, data: seq<Byte>, len: nat) {
    && (|s.buf| == 0 || IsSize(|s.buf|)) && len <= |data| && len <= |s.buf| && Enabled(s, PutBegin(data))
    && Apply(s, PutBegin(data)) == PuttingState(s, s.buf, data, len, Span(0, len))
  }

  lemma PutBeginAlone(s: State, data: seq<Byte>, len: nat)
    requires Inv(s) && s.producer.Rest? && |data| < WORD
    requires len == Min(|data|, |s.buf| - |Queue(s)|)
    ensures CanPut(s, data, len)
  {
    RefinesQueue(s, PutBegin(data));
    assert Upto(len) == Span(0, len);
  }

  lemma PutEndAlone(s: State, b: seq<Byte>, data: seq<Byte>, len: nat)
    requires s.producer.Rest? && len <= |data|
    ensures Enabled(PuttingState(s, b, data, len, {}), PutEnd)
    ensures Apply(PuttingState(s, b, data, len, {}), PutEnd) ==
            s.(buf := b, inPos := Wrap(s.inPos + len), accepted := s.accepted + data[..len])
  {
  }

  // An uninterrupted kfifo_put, whatever the consumer is at.
  lemma PutIsRun(s: State, data: seq<Byte>, len: nat, b: seq<Byte>)
    requires CanPut(s, data, len)
    requires CopiedFrom(s.buf, b, Start(s.inPos, |s.buf|), data, 0, len)
    ensures Leads(s, PutSteps(data, len),
                  s.(buf := b, inPos := Wrap(s.inPos + len), accepted := s.accepted + data[..len]))
  {
    PutEndAlone(s, b, data, len);
    PutCopiesLead(s, data, 0, len, s.buf, b);
    Bracketed(s, PutBegin(data), PuttingState(s, s.buf, data, len, Span(0, len)), PutCopies(0, len),
              PuttingState(s, b, data, len, {}), PutEnd,
              s.(buf := b, inPos := Wrap(s.inPos + len), accepted := s.accepted + data[..len]));
  }

  // So the two copies put the new bytes after the held ones, around the end of
  // the buffer, and disturb none of the held ones.
  lemma Appended(s: State, data: seq<Byte>, len: nat, b: seq<Byte>)
    requires Inv(s) && s.producer.Rest? && |data| < WORD && len == Min(|data|, |s.buf| - |Queue(s)|)
    requires CopiedFrom(s.buf, b, Start(s.inPos, |s.buf|), data, 0, len)
    ensures |b| == |s.buf| && len <= |data|
    ensures forall k: nat :: |s.delivered| <= k < |s.accepted| + len ==>
              |b| >= 1 && b[Slot(k, |b|)] == (s.accepted + data[..len])[k]
  {
    PutBeginAlone(s, data, len);
    PutIsRun(s, data, len, b);
    var t := s.(buf := b, inPos := Wrap(s.inPos + len), accepted := s.accepted + data[..len]);
    LeadsKeepsInv(s, PutSteps(data, len), t);
    assert |b| > 0 ==> Stored(t);
  }

  lemma Bracketed(s: State, first: Action, t: State, middle: seq<Action>, u: State, last: Action, v: State)
    requires Enabled(s, first) && Apply(s, first) == t && Leads(t, middle, u)
    requires Enabled(u, last) && Apply(u, last) == v
    ensures Leads(s, [first] + middle + [last], v)
  {
    assert [first][1..] == [] && [last][1..] == [];
    LeadsOn(s, [first], t, middle, u);
    LeadsOn(s, [first] + middle, u, [last], v);
  }

  // g is c with the bytes k up to len fetched from the slots of b from pos on.
  ghost predicate Fetched(b: seq<Byte>, pos: nat, c: seq<Byte>, g: seq<Byte>, k: nat, len: nat)
  {
    && len <= |g| == |c|
    && forall i :: 0 <= i < |g| ==> FetchedAt(b, pos, c, g, k, len, i)
  }

  ghost predicate FetchedAt(b: seq<Byte>, pos: nat, c: seq<Byte>, g: seq<Byte>, k: nat, len: nat, i: nat)
    requires i < |g| && i < |c|
  {
    if k <= i < len then
      var x := CopyIndex(pos, len, i, |b|); 0 <= x < |b| && g[i] == b[x]
    else
      g[i] == c[i]
  }

  // s with c in the caller's bytes and those at todo still to be fetched
  ghost function GettingState(s: State, c: seq<Byte>, len: nat, todo: set<nat>): State {
    s.(consumer := Reading(c, len, todo))
  }

  ghost function GetCopies(k: nat, len: nat): seq<Action>
    decreases len - k
  {
    if k >= len then [] else [GetCopy(k)] + GetCopies(k + 1, len)
  }

  lemma {:induction false} GetCopiesLead(s: State, k: nat, len: nat, c: seq<Byte>, g: seq<Byte>)
    requires k <= len <= |s.buf| && Fetched(s.buf, s.outPos, c, g, k, len)
    ensures Leads(GettingState(s, c, len, Span(k, len)), GetCopies(k, len), GettingState(s, g, len, {}))
    decreases len - k
  {
    if k == len {
      forall i | 0 <= i < |g|
        ensures g[i] == c[i]
      {
        assert FetchedAt(s.buf, s.outPos, c, g, k, len, i);
      }
      assert g == c;
    } else {
      assert FetchedAt(s.buf, s.outPos, c, g, k, len, k);
      var j, d := k + 1, c[k := s.buf[CopyIndex(s.outPos, len, k, |s.buf|)]];
      forall i | 0 <= i < |g|
        ensures FetchedAt(s.buf, s.outPos, d, g, j, len, i)
      {
        assert FetchedAt(s.buf, s.outPos, c, g, k, len, i);
      }
      assert Span(k, len) - {k} == Span(k + 1, len);
      GetCopiesLead(s, j, len, d, g);
      assert GetCopies(k, len)[1..] == GetCopies(k + 1, len);
    }
  }

  ghost function GetSteps(scratch: seq<Byte>, len: nat): seq<Action> {
    [GetBegin(scratch)] + GetCopies(0, len) + [GetEnd]
  }

  // It is the consumer's turn to begin a call that will deliver len bytes.
  ghost predicate CanGet(s: State, scratch: seq<Byte>, len: nat) {
    && (|s.buf| == 0 || IsSize(|s.buf|)) && len <= |scratch| && len <= |s.buf| && Enabled(s, GetBegin(scratch))
    && Apply(s, GetBegin(scratch)) == GettingState(s, scratch, len, Span(0, len))
  }

  lemma GetBeginAlone(s: State, scratch: seq<Byte>, len: nat)
    requires Inv(s) && s.consumer.Rest? && |scratch| < WORD && len == Min(|scratch|, |Queue(s)|)
    ensures CanGet(s, scratch, len)
  {
    RefinesQueue(s, GetBegin(scratch));
    assert Upto(len) == Span(0, len);
  }

  lemma GetEndAlone(s: State, g: seq<Byte>, len: nat)
    requires s.consumer.Rest? && len <= |g|
    ensures Enabled(GettingState(s, g, len, {}), GetEnd)
    ensures Apply(GettingState(s, g, len, {}), GetEnd) ==
            s.(outPos := Wrap(s.outPos + len), delivered := s.delivered + g[..len])
  {
  }

  // An uninterrupted kfifo_get, whatever the producer is at.
  lemma GetIsRun(s: State, scratch: seq<Byte>, len: nat, g: seq<Byte>)
    requires CanGet(s, scratch, len) && Fetched(s.buf, s.outPos, scratch, g, 0, len)
    ensures Leads(s, GetSteps(scratch, len), s.(outPos := Wrap(s.outPos + len), delivered := s.delivered + g[..len]))
  {
    GetEndAlone(s, g, len);
    GetCopiesLead(s, 0, len, scratch, g);
    Bracketed(s, GetBegin(scratch), GettingState(s, scratch, len, Span(0, len)), GetCopies(0, len),
              GettingState(s, g, len, {}), GetEnd,
              s.(outPos := Wrap(s.outPos + len), delivered := s.delivered + g[..len]));
  }
}
