/** The calls that the interrupt dispatcher makes, against the lines that asked. */
module DispatchLog {

  const NIRQ := 32

  type Word = s: set<nat> | forall i :: i in s ==> i < NIRQ

  datatype Option<+T> = None | Some(value: T)
  datatype Handler = Handler(isr: int, context: int)

  /** A call of the handler of `line`, after read number `read` of the pending register. */
  datatype Call = Call(read: nat, line: nat, handler: Handler)

  /** The lines that ask for an interrupt at each read of the pending register: anything at all. */
  type Requests = nat -> set<nat>

  /** The call is that of the lowest line that was enabled and asking when the register was read, and goes to the
      handler registered for it. */
  ghost predicate Lawful(c: Call, requests: Requests, active: Word, table: seq<Option<Handler>>) {
    && c.line in active && c.line in requests(c.read)
    && (forall j :: j in active && j in requests(c.read) ==> c.line <= j)
    && c.line < |table| && table[c.line] == Some(c.handler)
  }

  /** Read number `n` led to one of the calls made since there were `before`. */
  ghost predicate Answered(before: seq<Call>, calls: seq<Call>, n: nat) {
    exists k :: |before| <= k < |calls| && calls[k].read == n
  }

  /** The calls made since there were `before` are lawful, on lines below `limit`, and each follows a read of its
      own, numbered from `from` on and below `to`; and each of these reads that showed a line, of which `shown`
      has the words, led to such a call. */
  ghost predicate Lawfully(before: seq<Call>, calls: seq<Call>, requests: Requests, active: Word,
                           table: seq<Option<Handler>>, limit: nat, shown: seq<Word>, from: nat, to: nat)
  {
    && before <= calls && from <= to <= |shown|
    && (forall k :: |before| <= k < |calls| ==>
          && Lawful(calls[k], requests, active, table) && calls[k].line < limit && from <= calls[k].read < to
          && calls[k].line in shown[calls[k].read])
    && (forall k, l :: |before| <= k < l < |calls| ==> calls[k].read < calls[l].read)
    && (forall n :: from <= n < to && shown[n] != {} ==> Answered(before, calls, n))
  }

  lemma LawfulNone(calls: seq<Call>, requests: Requests, active: Word, table: seq<Option<Handler>>, limit: nat,
                   shown: seq<Word>, from: nat)
    requires from <= |shown|
    ensures Lawfully(calls, calls, requests, active, table, limit, shown, from, from)
  {
  }

  /** A read that showed no line needs no call. */
  lemma LawfulEnd(calls: seq<Call>, requests: Requests, active: Word, table: seq<Option<Handler>>, limit: nat,
                  shown: seq<Word>, n: nat)
    requires n < |shown| && shown[n] == {}
    ensures Lawfully(calls, calls, requests, active, table, limit, shown, n, n + 1)
  {
  }

  lemma LawfulMore(a: seq<Call>, b: seq<Call>, c: seq<Call>, requests: Requests, active: Word,
                   table: seq<Option<Handler>>, limit: nat, shown: seq<Word>, shown': seq<Word>, from: nat, mid: nat,
                   to: nat)
    requires Lawfully(a, b, requests, active, table, limit, shown, from, mid) && shown <= shown'
    requires Lawfully(b, c, requests, active, table, limit, shown', mid, to)
    ensures Lawfully(a, c, requests, active, table, limit, shown', from, to)
  {
    forall k | |a| <= k < |c|
      ensures Lawful(c[k], requests, active, table) && c[k].line < limit && from <= c[k].read < to
      ensures c[k].line in shown'[c[k].read]
      ensures k < |b| ==> c[k] == b[k]
    {
    }
    forall n | from <= n < to && shown'[n] != {}
      ensures Answered(a, c, n)
    {
      if n < mid {
        var k :| |a| <= k < |b| && b[k].read == n;
        assert c[k].read == n;
      } else {
        var k :| |b| <= k < |c| && c[k].read == n;
      }
    }
  }

  /** One call, and those made while its handler ran. */
  lemma LawfulCall(a: seq<Call>, call: Call, c: seq<Call>, requests: Requests, active: Word,
                   table: seq<Option<Handler>>, limit: nat, shown: seq<Word>, to: nat)
    requires Lawful(call, requests, active, table) && call.line < limit
    requires call.read < |shown| && call.line in shown[call.read]
    requires Lawfully(a + [call], c, requests, active, table, call.line, shown, call.read + 1, to)
    ensures Lawfully(a, c, requests, active, table, limit, shown, call.read, to) && |a| < |c| && c[|a|] == call
  {
    assert c[|a|] == call;
    forall n | call.read <= n < to && shown[n] != {}
      ensures Answered(a, c, n)
    {
      if n == call.read {
        assert c[|a|].read == n;
      } else {
        var k :| |a + [call]| <= k < |c| && c[k].read == n;
      }
    }
  }

  lemma LetThrough(w: Word, mask: Word)
    ensures w * mask == w <==> w <= mask
  {
  }
}
