/** Segmentation of a status dataset response (src/mgmt/status-dataset-context.cpp). */
module Datasets {
  import opened Octets
  import opened Results

  /** Half of MAX_NDN_PACKET_SIZE. */
  const PAYLOAD: nat := 4400

  datatype State = INITIAL | RESPONDED | FINALIZED

  datatype Error = WrongState

  /** A call of the data sender: segment number, content, isFinalBlock. */
  datatype Segment = Segment(number: nat, content: seq<byte>, isFinal: bool)

  /** max(1, ceil(total / PAYLOAD)) */
  function SegmentCount(total: nat): nat
  {
    if total == 0 then 1 else (total + 4399) / 4400
  }

  /** Where segment `k` begins. */
  function Offset(k: nat): nat
  {
    4400 * k
  }

  /** The octets of segment `k`; the last one takes what is left. */
  function Chunk(data: seq<byte>, k: nat): seq<byte>
  {
    if Offset(k + 1) <= |data| then data[Offset(k)..Offset(k + 1)]
    else if Offset(k) <= |data| then data[Offset(k)..]
    else []
  }

  /** The first `k` segments of a response with more to come. */
  function FullSegments(data: seq<byte>, k: nat): seq<Segment>
  {
    if k == 0 then [] else FullSegments(data, k - 1) + [Segment(k - 1, Chunk(data, k - 1), false)]
  }

  /** The segments of a complete response, from its octets alone. */
  function Segmentation(data: seq<byte>): seq<Segment>
  {
    var last := SegmentCount(|data|) - 1;
    FullSegments(data, last) + [Segment(last, Chunk(data, last), true)]
  }

  function Contents(segments: seq<Segment>): seq<byte>
  {
    if segments == [] then [] else Contents(segments[..|segments| - 1]) + segments[|segments| - 1].content
  }

  lemma CountBounds(total: nat)
    ensures SegmentCount(total) > 0
    ensures Offset(SegmentCount(total) - 1) <= total <= Offset(SegmentCount(total))
    ensures total > 0 ==> Offset(SegmentCount(total) - 1) < total
  {
  }

  lemma ChunkIsNext(data: seq<byte>, k: nat)
    requires Offset(k) <= |data|
    ensures Offset(k + 1) <= |data| ==>
              |Chunk(data, k)| == PAYLOAD && data[..Offset(k + 1)] == data[..Offset(k)] + Chunk(data, k)
    ensures |data| <= Offset(k + 1) ==>
              |Chunk(data, k)| == |data| - Offset(k) && data == data[..Offset(k)] + Chunk(data, k)
  {
  }

  lemma ContentsSnoc(segments: seq<Segment>, last: Segment)
    ensures Contents(segments + [last]) == Contents(segments) + last.content
  {
    assert (segments + [last])[..|segments|] == segments;
  }

  lemma {:induction false} FullSegmentsAreFull(data: seq<byte>, k: nat)
    requires Offset(k) <= |data|
    ensures |FullSegments(data, k)| == k && Contents(FullSegments(data, k)) == data[..Offset(k)]
    ensures forall i :: 0 <= i < k ==>
              FullSegments(data, k)[i].number == i && !FullSegments(data, k)[i].isFinal
              && |FullSegments(data, k)[i].content| == PAYLOAD
  {
    hide Chunk, Contents;
    if k > 0 {
      FullSegmentsAreFull(data, k - 1);
      ChunkIsNext(data, k - 1);
      ContentsSnoc(FullSegments(data, k - 1), Segment(k - 1, Chunk(data, k - 1), false));
    } else {
      assert Contents([]) == [] by { NoContents(); }
    }
  }

  lemma NoContents()
    ensures Contents([]) == []
  {
  }

  /** The segments carry the data and nothing else, are numbered without gaps, and only the last is final;
      all others are full. */
  lemma SegmentationIsComplete(data: seq<byte>)
    ensures Contents(Segmentation(data)) == data
    ensures var s := Segmentation(data);
            && |s| == SegmentCount(|data|)
            && (forall k :: 0 <= k < |s| ==> s[k].number == k && (s[k].isFinal <==> k == |s| - 1))
            && (forall k :: 0 <= k < |s| - 1 ==> |s[k].content| == PAYLOAD)
            && |s[|s| - 1].content| <= PAYLOAD && (data != [] ==> s[|s| - 1].content != [])
  {
    hide Chunk, Contents, FullSegments, SegmentCount;
    var last := SegmentCount(|data|) - 1;
    CountBounds(|data|);
    FullSegmentsAreFull(data, last);
    ChunkIsNext(data, last);
    ContentsSnoc(FullSegments(data, last), Segment(last, Chunk(data, last), true));
  }

  lemma FullSegmentCount(total: nat, segmentNo: nat, buffered: nat)
    ensures Offset(segmentNo) + buffered == total && buffered <= PAYLOAD && (segmentNo > 0 ==> buffered > 0) ==>
              segmentNo == SegmentCount(total) - 1
  {
  }

  datatype Call = Put(block: seq<byte>) | Done | Nack

  /** The first Done, or a Nack before anything else, ends the response. */
  predicate Finalized(calls: seq<Call>)
  {
    calls != [] && (calls[0] == Nack || Done in calls)
  }

  /** What append accepts over a run. */
  function Accepted(calls: seq<Call>): seq<byte>
  {
    if calls == [] then []
    else
      var before := calls[..|calls| - 1];
      Accepted(before) +
      if calls[|calls| - 1].Put? && !Finalized(before) then calls[|calls| - 1].block else []
  }

  lemma TakeMore(before: seq<byte>, block: seq<byte>, done: nat, n: nat)
    requires done + n <= |block|
    ensures before + block[..done + n] == (before + block[..done]) + block[done..done + n]
  {
    assert block[..done + n] == block[..done] + block[done..done + n];
  }

  /** Appending does not change the segments already full. */
  lemma {:induction false} FullSegmentsStay(data: seq<byte>, part: seq<byte>, k: nat)
    requires Offset(k) <= |data|
    ensures FullSegments(data + part, k) == FullSegments(data, k)
    ensures (data + part)[Offset(k)..] == data[Offset(k)..] + part
  {
    if k > 0 {
      FullSegmentsStay(data, part, k - 1);
      assert (data + part)[Offset(k - 1)..Offset(k)] == data[Offset(k - 1)..Offset(k)];
    }
  }

  lemma FullSegmentsStep(data: seq<byte>, k: nat)
    requires |data| == Offset(k + 1)
    ensures FullSegments(data, k + 1) == FullSegments(data, k) + [Segment(k, data[Offset(k)..], false)]
  {
    assert data[Offset(k)..] == data[Offset(k)..Offset(k + 1)];
  }

  class StatusDatasetContext {
    var state: State
    var buffer: seq<byte>
    var segmentNo: nat
    var sent: seq<Segment>     // what went to the data sender
    var nacks: nat             // calls of the nack sender
    ghost var appended: seq<byte>

    /** Full segments went out and the rest is buffered; the buffer is empty only if nothing was appended. */
    ghost predicate Buffered()
      reads this
    {
      && Offset(segmentNo) + |buffer| == |appended| && |buffer| <= PAYLOAD
      && buffer == appended[Offset(segmentNo)..]
    }

    ghost predicate Valid()
      reads this
    {
      && Buffered()
      && (segmentNo > 0 ==> buffer != [])
      && (state == INITIAL ==> appended == [])
      && (state != FINALIZED ==> nacks == 0 && sent == FullSegments(appended, segmentNo))
      && (state == FINALIZED ==>
            (nacks == 0 && sent == Segmentation(appended)) || (nacks == 1 && sent == [] && appended == []))
    }

    constructor ()
      ensures Valid() && state == INITIAL && appended == [] && sent == [] && nacks == 0
    {
      state, buffer, segmentNo, sent, nacks, appended := INITIAL, [], 0, [], 0, [];
    }

    /** append, of the wire of a Block. An iteration that finds the buffer full consumes nothing, but sends
        and empties it. */
    method Append(block: seq<byte>) returns (error: Option<Error>)
      requires Valid()
      modifies this
      ensures Valid() && nacks == old(nacks) && old(sent) <= sent
      ensures error.Some? <==> old(state) == FINALIZED
      ensures error.Some? ==> state == old(state) && appended == old(appended) && sent == old(sent)
      ensures error.None? ==> state == RESPONDED && appended == old(appended) + block
    {
      hide Segmentation, FullSegments, Chunk, SegmentCount, Contents, Offset;
      if state == FINALIZED {
        return Some(WrongState);
      }
      state := RESPONDED;
      var nBytesLeft: nat := |block|;
      ghost var before := appended;
      assert before + block[..0] == before;
      while nBytesLeft > 0
        invariant nBytesLeft <= |block| && state == RESPONDED && nacks == 0
        invariant Buffered() && (segmentNo > 0 && nBytesLeft == 0 ==> buffer != [])
        invariant sent == FullSegments(appended, segmentNo)
        invariant appended == before + block[..|block| - nBytesLeft]
        invariant old(sent) <= sent
        decreases nBytesLeft, |buffer|
      {
        var nBytesAppend := if nBytesLeft < PAYLOAD - |buffer| then nBytesLeft else PAYLOAD - |buffer|;
        var done := |block| - nBytesLeft;
        TakeMore(before, block, done, nBytesAppend);
        Fill(block[done..done + nBytesAppend]);
        nBytesLeft := nBytesLeft - nBytesAppend;
        if nBytesLeft > 0 {
          SendFull();
        }
      }
      assert block[..|block|] == block;
      return None;
    }

    method Fill(part: seq<byte>)
      requires Buffered() && |buffer| + |part| <= PAYLOAD && sent == FullSegments(appended, segmentNo)
      modifies this`buffer, this`appended
      ensures Buffered() && buffer == old(buffer) + part && appended == old(appended) + part
      ensures sent == FullSegments(appended, segmentNo)
    {
      hide FullSegments;
      FullSegmentsStay(appended, part, segmentNo);
      buffer := buffer + part;
      appended := appended + part;
    }

    method SendFull()
      requires Buffered() && |buffer| == PAYLOAD && sent == FullSegments(appended, segmentNo)
      modifies this`buffer, this`segmentNo, this`sent
      ensures Buffered() && buffer == [] && segmentNo == old(segmentNo) + 1
      ensures sent == FullSegments(appended, segmentNo) == old(sent) + [Segment(old(segmentNo), old(buffer), false)]
    {
      hide FullSegments;
      FullSegmentsStep(appended, segmentNo);
      sent := sent + [Segment(segmentNo, buffer, false)];
      segmentNo := segmentNo + 1;
      buffer := [];
    }

    /** end: what is buffered becomes the final segment, also when nothing was appended. */
    method End() returns (error: Option<Error>)
      requires Valid()
      modifies this
      ensures Valid() && appended == old(appended) && nacks == old(nacks)
      ensures error.Some? <==> old(state) == FINALIZED
      ensures error.Some? ==> state == old(state) && sent == old(sent)
      ensures error.None? ==> state == FINALIZED && sent == Segmentation(appended)
    {
      if state == FINALIZED {
        return Some(WrongState);
      }
      state := FINALIZED;
      CountBounds(|appended|);
      assert SegmentCount(|appended|) == segmentNo + 1;
      assert Chunk(appended, segmentNo) == buffer;
      sent := sent + [Segment(segmentNo, buffer, true)];
      return None;
    }

    /** reject: only before anything else, so no data ever accompanies a nack. */
    method Reject() returns (error: Option<Error>)
      requires Valid()
      modifies this
      ensures Valid() && appended == old(appended) && sent == old(sent)
      ensures error.Some? <==> old(state) != INITIAL
      ensures error.Some? ==> state == old(state) && nacks == old(nacks)
      ensures error.None? ==> state == FINALIZED && nacks == 1 && sent == []
    {
      if state != INITIAL {
        return Some(WrongState);
      }
      state := FINALIZED;
      nacks := nacks + 1;
      return None;
    }

    /** Any sequence of calls on a fresh response: a nack and no segment if it comes first; otherwise the full
        segments of the octets accepted so far, and once finalized all their segments and no nack, whatever
        calls are refused on the way. */
    method Run(calls: seq<Call>)
      requires Valid()
      modifies this
      ensures Valid()
      ensures old(state) == INITIAL ==> appended == Accepted(calls) && (state == FINALIZED <==> Finalized(calls))
      ensures old(state) == INITIAL && calls != [] && calls[0] == Nack ==> nacks == 1 && sent == []
      ensures old(state) == INITIAL && (calls == [] || calls[0] != Nack) ==>
                && nacks == 0
                && sent == if Finalized(calls) then Segmentation(Accepted(calls))
                           else FullSegments(Accepted(calls), SegmentCount(|Accepted(calls)|) - 1)
    {
      hide Segmentation, FullSegments, SegmentCount, Offset;
      for k := 0 to |calls|
        invariant Valid()
        invariant old(state) == INITIAL ==> appended == Accepted(calls[..k]) && (state == INITIAL <==> k == 0)
        invariant old(state) == INITIAL ==> (state == FINALIZED <==> Finalized(calls[..k]))
        invariant old(state) == INITIAL ==> nacks == if k > 0 && calls[0] == Nack then 1 else 0
      {
        assert calls[..k + 1][..k] == calls[..k] && calls[..k + 1][k] == calls[k];
        match calls[k] {
          case Put(block) => var _ := Append(block);
          case Done => var _ := End();
          case Nack => var _ := Reject();
        }
      }
      assert calls[..|calls|] == calls;
      FullSegmentCount(|appended|, segmentNo, |buffer|);
    }
  }
}
