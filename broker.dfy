/** The broker as the benchmark sees it: stream entry identifiers, the reply
    to a one-entry consumer-group read, and the per-iteration stop signal.
    The network itself is not modelled; a worker's conversation with the
    broker is a scripted sequence of read replies. */
module Broker {

  /** A stream entry identifier: a millisecond timestamp and a sequence
      number within that millisecond. Workers only hand it back to XACK. */
  datatype EntryId = EntryId(ms: nat, seqNo: nat)

  /** What one `XREADGROUP ... COUNT 1 STREAMS key >` returns: one new entry
      for this consumer, or no entry at all when the group has nothing left. */
  datatype ReadReply = Entry(id: EntryId) | NoEntry

  /** The broker's answer to a consumer's k-th read. Past the scripted
      replies the stream has nothing more to deliver. */
  function ReplyAt(replies: seq<ReadReply>, k: nat): (r: ReadReply)
    ensures k >= |replies| ==> r == NoEntry
    ensures k < |replies| ==> r == replies[k]
  {
    if k < |replies| then replies[k] else NoEntry
  }

  /** A stream holding exactly the entries `ids`, in order. */
  function Entries(ids: seq<EntryId>): (r: seq<ReadReply>)
    ensures |r| == |ids|
    ensures forall k :: 0 <= k < |r| ==> r[k] == Entry(ids[k])
  {
    if ids == [] then [] else [Entry(ids[0])] + Entries(ids[1..])
  }

  /** Whether the stop channel is seen closed at the top of iteration t;
      past the scripted flags it stays open. */
  function StopAt(stops: seq<bool>, t: nat): (b: bool)
    ensures b ==> t < |stops|
  {
    t < |stops| && stops[t]
  }
}
