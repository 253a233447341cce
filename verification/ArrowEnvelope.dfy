/** Writing the Arrow envelope [hash][IPC] to a seekable sink chunk by chunk, under a byte budget,
  and its equality with the envelope built in memory. */
module ArrowEnvelope {
  import opened Wrappers
  import opened Bytes

  const HASH_BYTES := 8

  /** A one-shot xxHash3-64: eight bytes. */
  ghost predicate IsHash(hash: seq<Byte> -> seq<Byte>) {
    forall v :: |hash(v)| == HASH_BYTES
  }

  // ---------- the buffered path ----------

  /** `serialize`: the checksum, then the IPC bytes. */
  function Envelope(hash: seq<Byte> -> seq<Byte>, ipc: seq<Byte>): seq<Byte> {
    hash(ipc) + ipc
  }

  /** `serialize_data`: the framed envelope, or None when it exceeds the ceiling. */
  function SerializeData(hash: seq<Byte> -> seq<Byte>, prefix: seq<Byte>, ipc: seq<Byte>, maxValueSize: int)
    : Option<seq<Byte>>
  {
    var wrapped := prefix + Envelope(hash, ipc);
    if |wrapped| > maxValueSize then None else Some(wrapped)
  }

  // ---------- sinks ----------

  /** What a seekable file holds after v is written at position pos. */
  function Overwrite(data: seq<Byte>, pos: nat, v: seq<Byte>): (r: seq<Byte>)
    requires pos <= |data|
    ensures |r| >= pos + |v|
  {
    data[..pos] + v + if pos + |v| < |data| then data[pos + |v|..] else []
  }

  lemma OverwriteNext(data: seq<Byte>, pos: nat, v: seq<Byte>, w: seq<Byte>)
    requires pos <= |data|
    ensures Overwrite(Overwrite(data, pos, v), pos + |v|, w) == Overwrite(data, pos, v + w)
  {
  }

  lemma OverwriteAgain(data: seq<Byte>, pos: nat, v: seq<Byte>, w: seq<Byte>, rest: seq<Byte>)
    requires pos <= |data| && |v| == |w|
    ensures Overwrite(Overwrite(data, pos, v + rest), pos, w) == Overwrite(data, pos, w + rest)
  {
  }

  class Sink {
    var data: seq<Byte>
    var pos: nat

    predicate Valid()
      reads this
    {
      pos <= |data|
    }

    constructor (data: seq<Byte>)
      ensures Valid() && this.data == data && pos == |data|
    {
      this.data, pos := data, |data|;
    }

    method Write(v: seq<Byte>)
      requires Valid()
      modifies this
      ensures Valid() && data == Overwrite(old(data), old(pos), v) && pos == old(pos) + |v|
    {
      data := data[..pos] + v + if pos + |v| < |data| then data[pos + |v|..] else [];
      pos := pos + |v|;
    }

    method Seek(p: nat)
      requires p <= |data|
      modifies this`pos
      ensures pos == p
    {
      pos := p;
    }
  }

  class HashingSink {
    const raw: Sink
    const budget: Option<int>
    var written: nat
    /** The bytes the incremental hasher was fed. */
    var hashed: seq<Byte>

    constructor (raw: Sink, budget: Option<int>)
      ensures this.raw == raw && this.budget == budget && written == 0 && hashed == []
    {
      this.raw, this.budget, written, hashed := raw, budget, 0, [];
    }

    predicate Exceeded()
      reads this
    {
      budget.Some? && written > budget.value
    }

    /** A rejected write raises before anything is hashed or forwarded; it still counts. */
    method Write(v: seq<Byte>) returns (ok: bool)
      requires raw.Valid()
      modifies this, raw
      ensures raw.Valid() && written == old(written) + |v| && ok == !Exceeded()
      ensures hashed == old(hashed) + if ok then v else []
      ensures ok ==> raw.data == Overwrite(old(raw.data), old(raw.pos), v) && raw.pos == old(raw.pos) + |v|
      ensures !ok ==> raw.data == old(raw.data) && raw.pos == old(raw.pos)
    {
      written := written + |v|;
      if budget.Some? && written > budget.value { return false; }
      hashed := hashed + v;
      raw.Write(v);
      ok := true;
    }
  }

  // ---------- streaming ----------

  /** How many leading chunks pass the budget. */
  function Accepted(chunks: seq<seq<Byte>>, written: nat, budget: Option<int>): (k: nat)
    ensures k <= |chunks|
    decreases |chunks|
  {
    if chunks == [] || (budget.Some? && written + |chunks[0]| > budget.value) then 0
    else 1 + Accepted(chunks[1..], written + |chunks[0]|, budget)
  }

  lemma {:induction false} ConcatHead(chunks: seq<seq<Byte>>)
    requires chunks != []
    ensures Concat(chunks) == chunks[0] + Concat(chunks[1..])
  {
    if |chunks| > 1 {
      var init := chunks[..|chunks| - 1];
      ConcatHead(init);
      assert init[1..] == chunks[1..][..|chunks| - 2];
    } else {
      assert chunks[..0] == [] && chunks[1..] == [];
    }
  }

  /** All chunks pass exactly when together they fit, however the bytes are cut; what passes
    always fits. */
  lemma {:induction false} AcceptedFits(chunks: seq<seq<Byte>>, written: nat, budget: Option<int>)
    ensures var k := Accepted(chunks, written, budget);
            && (k > 0 && budget.Some? ==> written + |Concat(chunks[..k])| <= budget.value)
            && (chunks != [] ==> (k == |chunks| <==> budget.None? || written + |Concat(chunks)| <= budget.value))
    decreases |chunks|
  {
    var k := Accepted(chunks, written, budget);
    if chunks != [] {
      ConcatHead(chunks);
      AcceptedFits(chunks[1..], written + |chunks[0]|, budget);
      if k > 0 {
        ConcatHead(chunks[..k]);
        assert chunks[..k][1..] == chunks[1..][..k - 1];
      }
    }
  }

  /** The IPC writer: writes its chunks in turn; after a rejected one its close still attempts
    the chunks of `closing`, and the error propagates. */
  method Stream(sink: HashingSink, chunks: seq<seq<Byte>>, closing: seq<seq<Byte>>) returns (ok: bool)
    requires sink.raw.Valid()
    modifies sink, sink.raw
    ensures sink.raw.Valid()
    ensures var k := Accepted(chunks, old(sink.written), sink.budget); var sent := Concat(chunks[..k]);
            && (ok <==> k == |chunks|)
            && sink.raw.data == Overwrite(old(sink.raw.data), old(sink.raw.pos), sent)
            && sink.raw.pos == old(sink.raw.pos) + |sent|
            && sink.hashed == old(sink.hashed) + sent
  {
    hide Concat, Accepted, Overwrite;
    var i := 0;
    StreamStart(chunks, sink.raw.data, sink.raw.pos);
    assert chunks[0..] == chunks;
    while i < |chunks|
      invariant i <= |chunks| && sink.raw.Valid()
      invariant Accepted(chunks, old(sink.written), sink.budget) == i + Accepted(chunks[i..], sink.written, sink.budget)
      invariant sink.raw.data == Overwrite(old(sink.raw.data), old(sink.raw.pos), Concat(chunks[..i]))
      invariant sink.raw.pos == old(sink.raw.pos) + |Concat(chunks[..i])|
      invariant sink.hashed == old(sink.hashed) + Concat(chunks[..i])
    {
      ConcatNext(chunks, i);
      OverwriteNext(old(sink.raw.data), old(sink.raw.pos), Concat(chunks[..i]), chunks[i]);
      AcceptedNext(chunks, i, sink.written, sink.budget);
      ok := sink.Write(chunks[i]);
      if !ok {
        Close(sink, closing);
        return;
      }
      i := i + 1;
    }
    ok := true;
    assert chunks[..|chunks|] == chunks;
    StreamEnd(chunks[i..], sink.written, sink.budget);
  }

  lemma StreamStart(chunks: seq<seq<Byte>>, data: seq<Byte>, pos: nat)
    requires pos <= |data|
    ensures Concat(chunks[..0]) == [] && Overwrite(data, pos, []) == data
  {
  }

  lemma StreamEnd(rest: seq<seq<Byte>>, written: nat, budget: Option<int>)
    requires rest == []
    ensures Accepted(rest, written, budget) == 0
  {
  }

  lemma ConcatNext(chunks: seq<seq<Byte>>, i: nat)
    requires i < |chunks|
    ensures Concat(chunks[..i + 1]) == Concat(chunks[..i]) + chunks[i]
  {
    assert chunks[..i + 1][..i] == chunks[..i];
  }

  lemma AcceptedNext(chunks: seq<seq<Byte>>, i: nat, written: nat, budget: Option<int>)
    requires i < |chunks|
    ensures Accepted(chunks[i..], written, budget) ==
            if budget.Some? && written + |chunks[i]| > budget.value then 0
            else 1 + Accepted(chunks[i + 1..], written + |chunks[i]|, budget)
  {
    assert chunks[i..][1..] == chunks[i + 1..];
  }

  /** Once the budget is exceeded every later write is rejected. */
  method Close(sink: HashingSink, closing: seq<seq<Byte>>)
    requires sink.raw.Valid() && sink.Exceeded()
    modifies sink, sink.raw
    ensures sink.raw.Valid() && sink.Exceeded() && sink.hashed == old(sink.hashed)
    ensures sink.raw.data == old(sink.raw.data) && sink.raw.pos == old(sink.raw.pos)
  {
    for i := 0 to |closing|
      invariant sink.raw.Valid() && sink.Exceeded() && sink.hashed == old(sink.hashed)
      invariant sink.raw.data == old(sink.raw.data) && sink.raw.pos == old(sink.raw.pos)
    {
      var ok := sink.Write(closing[i]);
    }
  }

  const PLACEHOLDER: seq<Byte> := [0, 0, 0, 0, 0, 0, 0, 0]

  /** `serialize_to_sink`: the placeholder, the chunks, then the checksum patched in place. */
  method SerializeToSink(hash: seq<Byte> -> seq<Byte>, sink: Sink, chunks: seq<seq<Byte>>, closing: seq<seq<Byte>>,
                         maxBytes: Option<int>) returns (ok: bool)
    requires IsHash(hash) && sink.Valid() && chunks != []
    modifies sink
    ensures sink.Valid()
    ensures ok <==> maxBytes.None? || |Envelope(hash, Concat(chunks))| <= maxBytes.value
    ensures ok ==> var env := Envelope(hash, Concat(chunks));
                   sink.data == Overwrite(old(sink.data), old(sink.pos), env) && sink.pos == old(sink.pos) + |env|
    ensures !ok ==> exists k :: 0 <= k < |chunks| && (k > 0 ==> HASH_BYTES + |Concat(chunks[..k])| <= maxBytes.value) &&
                      sink.data == Overwrite(old(sink.data), old(sink.pos), PLACEHOLDER + Concat(chunks[..k]))
  {
    hide Concat, Accepted, Overwrite;
    var checksumPos := sink.pos;
    sink.Write(PLACEHOLDER);
    var hashing := new HashingSink(sink, if maxBytes.Some? then Some(maxBytes.value - HASH_BYTES) else None);
    ghost var k := Accepted(chunks, 0, hashing.budget);
    AcceptedFits(chunks, 0, hashing.budget);
    OverwriteNext(old(sink.data), old(sink.pos), PLACEHOLDER, Concat(chunks[..k]));
    ok := Stream(hashing, chunks, closing);
    if !ok { return; }
    assert chunks[..k] == chunks;
    assert sink.data == Overwrite(old(sink.data), old(sink.pos), PLACEHOLDER + Concat(chunks));
    assert hashing.hashed == Concat(chunks);
    var endPos := sink.pos;
    OverwriteAgain(old(sink.data), old(sink.pos), PLACEHOLDER, hash(hashing.hashed), Concat(chunks));
    sink.Seek(checksumPos);
    sink.Write(hash(hashing.hashed));
    sink.Seek(endPos);
  }

  /** `write_serialized_to` succeeds exactly when `serialize_data` does, and writes the same bytes. */
  method WriteSerializedTo(hash: seq<Byte> -> seq<Byte>, sink: Sink, prefix: seq<Byte>, chunks: seq<seq<Byte>>,
                           closing: seq<seq<Byte>>, maxValueSize: int) returns (ok: bool)
    requires IsHash(hash) && sink.Valid() && chunks != []
    modifies sink
    ensures sink.Valid()
    ensures var buffered := SerializeData(hash, prefix, Concat(chunks), maxValueSize);
            && (ok <==> buffered.Some?)
            && (ok ==> sink.data == Overwrite(old(sink.data), old(sink.pos), buffered.value) &&
                       sink.pos == old(sink.pos) + |buffered.value|)
    ensures !ok ==> exists k :: 0 <= k < |chunks| &&
                      (k > 0 ==> |prefix| + HASH_BYTES + |Concat(chunks[..k])| <= maxValueSize) &&
                      sink.data == Overwrite(old(sink.data), old(sink.pos), prefix + PLACEHOLDER + Concat(chunks[..k]))
  {
    hide Concat, Overwrite;
    sink.Write(prefix);
    label Framed:
    OverwriteNext(old(sink.data), old(sink.pos), prefix, Envelope(hash, Concat(chunks)));
    ok := SerializeToSink(hash, sink, chunks, closing, Some(maxValueSize - |prefix|));
    if !ok {
      ghost var k :| 0 <= k < |chunks| && (k > 0 ==> HASH_BYTES + |Concat(chunks[..k])| <= maxValueSize - |prefix|) &&
        sink.data == Overwrite(old@Framed(sink.data), old@Framed(sink.pos), PLACEHOLDER + Concat(chunks[..k]));
      OverwriteNext(old(sink.data), old(sink.pos), prefix, PLACEHOLDER + Concat(chunks[..k]));
      assert prefix + (PLACEHOLDER + Concat(chunks[..k])) == prefix + PLACEHOLDER + Concat(chunks[..k]);
    }
  }
}
