/** The output relay of `handle_session`: read up to 1024 bytes from the shell
    channel, stop on a zero-length read, a read error or a chunk that is not
    UTF-8, and otherwise send the chunk as one `String` down the channel to
    the UI. The channel's reads are an input sequence of outcomes and the
    sends are the output sequence of messages; each message is the `String`'s
    bytes, which are exactly the bytes of the chunk it came from. */
module Relay {
  import opened Common
  import opened Utf8

  /** Size of the stack buffer each read fills. */
  const BufferSize: nat := 1024

  /** What one `channel.read(&mut buf)` returns. */
  datatype ReadOutcome = Data(bytes: Bytes) | ReadError(cause: string)

  /** Why the loop ended, or `Running` when the reads given ran out while it
      was still waiting for more. */
  datatype StopReason = EndOfStream | NotUtf8 | ReadFailed(cause: string) | Running

  /** The messages sent, why the loop stopped, and how many reads it made. */
  datatype RelayRun = RelayRun(messages: seq<Bytes>, stop: StopReason, count: nat)

  /** A read never returns more bytes than the buffer holds. */
  predicate FitsBuffer(rs: seq<ReadOutcome>)
  {
    forall i | 0 <= i < |rs| :: rs[i].Data? ==> |rs[i].bytes| <= BufferSize
  }

  /** Whether a read makes the loop `break`. */
  predicate Stops(r: ReadOutcome)
  {
    r.ReadError? || |r.bytes| == 0 || !WellFormed(r.bytes)
  }

  function StopOf(r: ReadOutcome): (reason: StopReason)
    requires Stops(r)
    ensures reason != Running
  {
    match r
    case ReadError(cause) => ReadFailed(cause)
    case Data(bytes) => if |bytes| == 0 then EndOfStream else NotUtf8
  }

  /** The chunk of every read, and nothing for a read error. */
  function Payloads(rs: seq<ReadOutcome>): (ps: seq<Bytes>)
    ensures |ps| == |rs|
  {
    seq(|rs|, i requires 0 <= i < |rs| => if rs[i].Data? then rs[i].bytes else [])
  }

  /** The loop of `handle_session`, one read at a time. */
  function Relay(rs: seq<ReadOutcome>): (run: RelayRun)
    requires FitsBuffer(rs)
    ensures run.count <= |rs|
    ensures run.stop == Running ==> |run.messages| == run.count == |rs|
    ensures run.stop != Running ==> |run.messages| + 1 == run.count
    ensures forall i | 0 <= i < |run.messages| ::
      WellFormed(run.messages[i]) && 0 < |run.messages[i]| <= BufferSize
    decreases |rs|
  {
    if |rs| == 0 then RelayRun([], Running, 0)
    else if Stops(rs[0]) then RelayRun([], StopOf(rs[0]), 1)
    else
      var rest := Relay(rs[1..]);
      RelayRun([rs[0].bytes] + rest.messages, rest.stop, rest.count + 1)
  }

  /** The relay is characterised by the first read that stops it, at index
      `k` (or `k == |rs|` when none does): the messages are exactly the
      chunks of the reads before `k`, in read order; the read at `k` sends
      nothing and names the stop reason; nothing after `k` is read. */
  lemma {:induction false} RelayCharacterised(rs: seq<ReadOutcome>, k: nat)
    requires FitsBuffer(rs)
    requires k <= |rs|
    requires forall i | 0 <= i < k :: !Stops(rs[i])
    requires k == |rs| || Stops(rs[k])
    ensures Relay(rs).messages == Payloads(rs[..k])
    ensures Relay(rs).stop == (if k == |rs| then Running else StopOf(rs[k]))
    ensures Relay(rs).count == (if k == |rs| then k else k + 1)
    decreases k
  {
    if k == 0 {
      assert Payloads(rs[..0]) == [];
    } else {
      assert !Stops(rs[0]);
      var tail := rs[1..];
      assert forall i | 0 <= i < k - 1 :: tail[i] == rs[i + 1];
      RelayCharacterised(tail, k - 1);
      assert Payloads(rs[..k]) == [rs[0].bytes] + Payloads(tail[..k - 1]);
    }
  }

  /** The index of the read that stopped the relay, when it stopped. */
  lemma StopIndex(rs: seq<ReadOutcome>) returns (k: nat)
    requires FitsBuffer(rs)
    ensures k <= |rs|
    ensures forall i | 0 <= i < k :: !Stops(rs[i])
    ensures k == |rs| || Stops(rs[k])
  {
    k := 0;
    while k < |rs| && !Stops(rs[k])
      invariant k <= |rs|
      invariant forall i | 0 <= i < k :: !Stops(rs[i])
    {
      k := k + 1;
    }
  }

  /** Concatenating the messages reproduces the concatenated chunks read
      before the stop, and is itself well-formed text. */
  lemma RelayReproducesText(rs: seq<ReadOutcome>)
    requires FitsBuffer(rs)
    ensures var run := Relay(rs);
      Flatten(run.messages) == Flatten(Payloads(rs[..|run.messages|]))
      && WellFormed(Flatten(run.messages))
  {
    var k := StopIndex(rs);
    RelayCharacterised(rs, k);
    FlattenWellFormed(Relay(rs).messages);
  }

  /** When every read delivers a non-empty well-formed chunk, the relay sends
      all of them and the UI receives the text exactly as the shell wrote it. */
  lemma {:induction false} ValidStreamRelayedWhole(rs: seq<ReadOutcome>)
    requires FitsBuffer(rs)
    requires forall i | 0 <= i < |rs| :: !Stops(rs[i])
    ensures Relay(rs).stop == Running
    ensures Flatten(Relay(rs).messages) == Flatten(Payloads(rs))
  {
    RelayCharacterised(rs, |rs|);
    assert rs[..|rs|] == rs;
  }

  lemma FitsBufferAppend(rs: seq<ReadOutcome>, more: seq<ReadOutcome>)
    requires FitsBuffer(rs) && FitsBuffer(more)
    ensures FitsBuffer(rs + more)
  {
    var all := rs + more;
    forall i | 0 <= i < |all| && all[i].Data?
      ensures |all[i].bytes| <= BufferSize
    {
      if i < |rs| { assert all[i] == rs[i]; } else { assert all[i] == more[i - |rs|]; }
    }
  }

  /** Once the relay has stopped, later reads change nothing: no message is
      sent for or after a zero-length read, a read error or a bad chunk. */
  lemma {:induction false} NothingAfterStop(rs: seq<ReadOutcome>, more: seq<ReadOutcome>)
    requires FitsBuffer(rs) && FitsBuffer(more)
    requires Relay(rs).stop != Running
    ensures FitsBuffer(rs + more)
    ensures Relay(rs + more) == Relay(rs)
    decreases |rs|
  {
    var all := rs + more;
    FitsBufferAppend(rs, more);
    assert all[0] == rs[0];
    if !Stops(rs[0]) {
      assert all[1..] == rs[1..] + more;
      NothingAfterStop(rs[1..], more);
    }
  }

  /** While the relay is still running, reading on continues it: the
      messages of a longer stream extend those of its prefix. */
  lemma {:induction false} RunningContinues(rs: seq<ReadOutcome>, more: seq<ReadOutcome>)
    requires FitsBuffer(rs) && FitsBuffer(more)
    requires Relay(rs).stop == Running
    ensures FitsBuffer(rs + more)
    ensures Relay(rs + more).messages == Relay(rs).messages + Relay(more).messages
    ensures Relay(rs + more).stop == Relay(more).stop
    ensures Relay(rs + more).count == |rs| + Relay(more).count
    decreases |rs|
  {
    var all := rs + more;
    FitsBufferAppend(rs, more);
    if |rs| == 0 {
      assert all == more;
    } else {
      var tail := rs[1..];
      assert all[0] == rs[0];
      assert all[1..] == tail + more;
      RelayStep(rs);
      RelayStep(all);
      RunningContinues(tail, more);
    }
  }

  /** One read that does not stop the loop sends its chunk first. */
  lemma RelayStep(rs: seq<ReadOutcome>)
    requires FitsBuffer(rs) && |rs| > 0 && !Stops(rs[0])
    ensures FitsBuffer(rs[1..])
    ensures Relay(rs) == RelayRun([rs[0].bytes] + Relay(rs[1..]).messages,
                                  Relay(rs[1..]).stop, Relay(rs[1..]).count + 1)
  {
  }

  /** A character split across two reads is never delivered: the first
      piece is not UTF-8 on its own, so the relay stops there and sends only
      what came before, although the two pieces together are well-formed. */
  lemma SplitCharacterStops(before: seq<ReadOutcome>, c: Bytes, k: nat, after: seq<ReadOutcome>)
    requires FitsBuffer(before) && FitsBuffer(after)
    requires forall i | 0 <= i < |before| :: !Stops(before[i])
    requires IsChar(c) && 0 < k < |c|
    ensures WellFormed(c[..k] + c[k..])
    ensures var rs := before + [Data(c[..k]), Data(c[k..])] + after;
      FitsBuffer(rs)
      && Relay(rs).messages == Payloads(before)
      && Relay(rs).stop == NotUtf8
  {
    assert c[..k] + c[k..] == c;
    CharIsMeasured(c, []);
    assert c + [] == c;
    CutCharIsIllFormed(c, k);
    var rs := before + [Data(c[..k]), Data(c[k..])] + after;
    assert FitsBuffer(rs) by {
      forall i | 0 <= i < |rs| && rs[i].Data?
        ensures |rs[i].bytes| <= BufferSize
      {
        if i < |before| { assert rs[i] == before[i]; }
        else if i >= |before| + 2 { assert rs[i] == after[i - |before| - 2]; }
      }
    }
    assert rs[..|before|] == before;
    assert rs[|before|] == Data(c[..k]);
    RelayCharacterised(rs, |before|);
  }

  /** The loop as the source writes it: read, decode, send, until a read
      stops it. Returns the messages sent, the stop reason and the number of
      reads made. */
  method RelayLoop(rs: seq<ReadOutcome>) returns (messages: seq<Bytes>, stop: StopReason, count: nat)
    requires FitsBuffer(rs)
    ensures RelayRun(messages, stop, count) == Relay(rs)
  {
    messages := [];
    var i := 0;
    while i < |rs|
      invariant 0 <= i <= |rs|
      invariant FitsBuffer(rs[i..])
      invariant Relay(rs) == RelayRun(messages + Relay(rs[i..]).messages,
                                      Relay(rs[i..]).stop, i + Relay(rs[i..]).count)
      decreases |rs| - i
    {
      var r := rs[i];
      match r {
        case ReadError(cause) =>
          return messages, ReadFailed(cause), i + 1;
        case Data(bytes) =>
          if |bytes| == 0 {
            return messages, EndOfStream, i + 1;
          }
          var ok := Validate(bytes);
          if !ok {
            return messages, NotUtf8, i + 1;
          }
          RelayStep(rs[i..]);
          assert rs[i..][1..] == rs[i + 1..];
          messages := messages + [bytes];
      }
      i := i + 1;
    }
    assert rs[i..] == [];
    return messages, Running, i;
  }
}
