/**
  Requests whose values come in one buffer that is overwritten for every request, as the bodies of
  binary requests do: what is stored and what has been handed out stays as it was.
 */
module BufferReuse {
  import opened Basics
  import opened Workers
  import Runs
  import Shard

  // ---------- What is handed out ----------

  /** The value that an event answers with, if it answers with one. */
  function HandedOut(cfg: Shard.Config, s: Shard.State, ev: Runs.Event): Option<Bytes> {
    if ev.Arrive? && Shard.AnswersValue(ev.req.op) && Shard.Handle(cfg, s, ev.req, ev.clk).1.err == Shard.NoError
    then Some(Shard.Handle(cfg, s, ev.req, ev.clk).1.value)
    else None
  }

  /** The array that was handed out reads as this value; none was if there is no value. */
  ghost predicate Reads(a: array?<byte>, value: Option<Bytes>)
    reads a
  {
    if value.None? then a == null else a != null && a[..] == value.value
  }

  /** All arrays handed out read as the values they were handed out for, and none of them is the buffer. */
  ghost predicate Intact(arrays: seq<array?<byte>>, values: seq<Option<Bytes>>, buf: array<byte>)
    reads arrays
  {
    && |arrays| == |values|
    && forall i :: 0 <= i < |arrays| ==> arrays[i] != buf && Reads(arrays[i], values[i])
  }

  /** The values that the events of a run answer with, in order. */
  function AllHandedOut(cfg: Shard.Config, s: Shard.State, evs: seq<Runs.Event>): (values: seq<Option<Bytes>>)
    ensures |values| == |evs|
  {
    if evs == [] then []
    else
      var prefix := evs[..|evs| - 1];
      AllHandedOut(cfg, s, prefix) + [HandedOut(cfg, Runs.Run(cfg, s, prefix), evs[|evs| - 1])]
  }

  // ---------- Serving out of a buffer ----------

  /** Puts a value at the start of the buffer, over whatever was there. */
  method Fill(buf: array<byte>, value: Bytes)
    requires |value| <= buf.Length
    modifies buf
    ensures buf[..|value|] == value
  {
    forall i | 0 <= i < |value| {
      buf[i] := value[i];
    }
  }

  /** Serves one request with its value in the buffer. */
  method ServeOne(w: Worker, buf: array<byte>, req: Shard.Request, clk: Shard.Clock) returns (r: Response)
    requires w.Valid() && buf !in w.Values() && |req.value| <= buf.Length
    modifies w, w.index, w.index.items, w.index.expiryHeap, w.index.expiryHeap.cells
    modifies w.index.lruList, w.index.lruList.root, w.index.lruList.members, buf
    ensures w.Valid() && buf !in w.Values() && w.Renewed() && r.value != buf
    ensures (w.State(), r.View()) == Shard.Handle(w.config, old(w.State()), req, clk)
    ensures r.value != null <==> Shard.AnswersValue(req.op) && r.err == Shard.NoError
  {
    Fill(buf, req.value);
    var wire := Request(req.op, req.key, Slice(buf, 0, |req.value|), req.ttl, req.cas, req.delta);
    assert wire.View() == req;
    r := w.HandleRequest(wire, clk);
  }

  /** Serves a request or a tick; the arrays handed out before are left alone. */
  method ServeEvent(w: Worker, buf: array<byte>, ev: Runs.Event, ghost arrays: seq<array?<byte>>,
                    ghost values: seq<Option<Bytes>>)
    returns (a: array?<byte>)
    requires w.Valid() && buf !in w.Values() && (ev.Arrive? ==> |ev.req.value| <= buf.Length)
    requires Intact(arrays, values, buf)
    modifies w, w.index, w.index.items, w.index.expiryHeap, w.index.expiryHeap.cells
    modifies w.index.lruList, w.index.lruList.root, w.index.lruList.members, buf
    ensures w.Valid() && buf !in w.Values() && w.Renewed() && Intact(arrays, values, buf)
    ensures w.State() == Runs.Step(w.config, old(w.State()), ev)
    ensures a != buf && Reads(a, HandedOut(w.config, old(w.State()), ev))
  {
    match ev
    case Tick(now) =>
      w.ExpireKeys(now);
      a := null;
    case Arrive(req, clk) =>
      var r := ServeOne(w, buf, req, clk);
      a := r.value;
  }

  /**
    Serves requests and ticks one after the other out of one buffer. The worker ends as if every value
    had been its own; and each request that answers with a value has handed out an array that at the
    end, after everything that came later, still reads as its answer.
   */
  method ServeAll(w: Worker, buf: array<byte>, evs: seq<Runs.Event>) returns (arrays: seq<array?<byte>>)
    requires w.Valid() && buf !in w.Values()
    requires forall i :: 0 <= i < |evs| && evs[i].Arrive? ==> |evs[i].req.value| <= buf.Length
    modifies w, w.index, w.index.items, w.index.expiryHeap, w.index.expiryHeap.cells
    modifies w.index.lruList, w.index.lruList.root, w.index.lruList.members, buf
    ensures w.Valid() && w.State() == Runs.Run(w.config, old(w.State()), evs)
    ensures Intact(arrays, AllHandedOut(w.config, old(w.State()), evs), buf)
  {
    arrays := [];
    ghost var start := w.State();
    for i := 0 to |evs|
      invariant w.Valid() && buf !in w.Values() && w.Renewed()
      invariant w.State() == Runs.Before(w.config, start, evs, i)
      invariant Intact(arrays, AllHandedOut(w.config, start, evs[..i]), buf)
    {
      ghost var values := AllHandedOut(w.config, start, evs[..i]);
      OneMoreEvent(w.config, start, evs, i);
      ghost var handed := HandedOut(w.config, w.State(), evs[i]);
      var a := ServeEvent(w, buf, evs[i], arrays, values);
      OneMoreArray(arrays, values, a, handed, buf);
      arrays := arrays + [a];
    }
    assert evs[..|evs|] == evs;
  }

  lemma OneMoreArray(arrays: seq<array?<byte>>, values: seq<Option<Bytes>>, a: array?<byte>, v: Option<Bytes>,
                     buf: array<byte>)
    requires Intact(arrays, values, buf) && a != buf && Reads(a, v)
    ensures Intact(arrays + [a], values + [v], buf)
  {
  }

  lemma OneMoreEvent(cfg: Shard.Config, s: Shard.State, evs: seq<Runs.Event>, i: nat)
    requires i < |evs|
    ensures Runs.Before(cfg, s, evs, i + 1) == Runs.Step(cfg, Runs.Before(cfg, s, evs, i), evs[i])
    ensures AllHandedOut(cfg, s, evs[..i + 1]) ==
            AllHandedOut(cfg, s, evs[..i]) + [HandedOut(cfg, Runs.Before(cfg, s, evs, i), evs[i])]
  {
    assert evs[..i + 1][..i] == evs[..i];
  }
}
