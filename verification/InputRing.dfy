/**
 The console input buffer of kern/console.c: a ring without a full flag, so that it empties itself
 when 512 characters are waiting.
 */
module InputRing {
  import opened Types

  const CONSBUFSIZE := 512

  // ----- The queue the ring stands for -----

  /** One character fed by a device; zero means "nothing finished yet". */
  function Push(q: seq<byte>, c: byte): seq<byte> {
    if c == 0 then q
    else if |q| + 1 == CONSBUFSIZE then []
    else q + [c]
  }

  function PushAll(q: seq<byte>, input: seq<byte>): seq<byte>
    decreases |input|
  {
    if input == [] then q else PushAll(Push(q, input[0]), input[1..])
  }

  // ----- The ring -----

  class Ring {
    const buf: array<byte>
    var rpos: nat
    var wpos: nat

    ghost predicate Valid()
      reads this, buf
    {
      buf.Length == CONSBUFSIZE && rpos < CONSBUFSIZE && wpos < CONSBUFSIZE
    }

    /** The waiting characters, oldest first. */
    ghost function Queue(): (q: seq<byte>)
      requires Valid()
      reads this, buf
      ensures |q| < CONSBUFSIZE
    {
      if rpos <= wpos then buf[rpos..wpos] else buf[rpos..] + buf[..wpos]
    }

    constructor ()
      ensures Valid() && Queue() == []
    {
      buf := new byte[CONSBUFSIZE](_ => 0);
      rpos, wpos := 0, 0;
      new;
      assert buf[0..0] == [];
    }

    /** `cons_intr`: stores what the device delivers, until it has nothing more. */
    method Intr(input: seq<byte>)
      requires Valid()
      modifies this`wpos, buf
      ensures Valid() && Queue() == PushAll(old(Queue()), input)
    {
      hide PushAll;
      ghost var goal := PushAll(Queue(), input);
      var n := 0;
      assert input[0..] == input;
      while n < |input|
        invariant 0 <= n <= |input| && Valid() && PushAll(Queue(), input[n..]) == goal
      {
        PushAllStep(Queue(), input[n..]);
        assert input[n..][1..] == input[n + 1..];
        var c := input[n];
        n := n + 1;
        if c == 0 {
          continue;
        }
        Store(c);
      }
      assert input[n..] == [];
      PushAllEmpty(Queue());
    }

    /** One round of the loop: store a nonzero character and advance the write index around the ring. */
    method Store(c: byte)
      requires Valid() && c != 0
      modifies this`wpos, buf
      ensures Valid() && Queue() == Push(old(Queue()), c)
    {
      buf[wpos] := c;
      wpos := wpos + 1;
      if wpos == CONSBUFSIZE {
        wpos := 0;
      }
    }

    /** `cons_getc`: polls both devices, then takes the oldest character, or 0 if none is waiting. */
    method GetC(serialExists: bool, serial: seq<byte>, keyboard: seq<byte>) returns (c: byte)
      requires Valid()
      modifies this, buf
      ensures Valid()
      ensures var q := PushAll(old(Queue()), (if serialExists then serial else []) + keyboard);
        if q == [] then c == 0 && Queue() == [] else c == q[0] && Queue() == q[1..]
    {
      hide PushAll;
      ghost var q0 := Queue();
      if serialExists {
        Intr(serial);
      } else {
        PushAllEmpty(q0);
      }
      Intr(keyboard);
      PushAllConcat(q0, if serialExists then serial else [], keyboard);
      if rpos != wpos {
        c := Take();
        return;
      }
      c := 0;
    }

    /** Take the oldest character and advance the read index around the ring. */
    method Take() returns (c: byte)
      requires Valid() && rpos != wpos
      modifies this`rpos
      ensures Valid() && old(Queue()) == [c] + Queue()
    {
      c := buf[rpos];
      rpos := rpos + 1;
      if rpos == CONSBUFSIZE {
        rpos := 0;
      }
    }

    /** One interrupt or polling read; an interrupt returns nothing, which is 0 here. */
    method Serve(call: Call, ghost h: History) returns (c: byte)
      requires Valid() && Queue() == h.queue && 0 !in Queue()
      modifies this, buf
      ensures Valid() && Queue() == Run(h, EventsOfCall(call)).queue && 0 !in Queue()
      ensures Run(h, EventsOfCall(call)).got == h.got + Character(c) && (call.Interrupt? ==> c == 0)
    {
      hide Run;
      hide PushAll;
      match call {
        case Interrupt(input) =>
          InterruptRun(h, input);
          Intr(input);
          c := 0;
        case Poll(serialExists, serial, keyboard) =>
          PollRun(h, serialExists, serial, keyboard);
          c := GetC(serialExists, serial, keyboard);
      }
    }

    /**
     A whole schedule of interrupts and polling reads, and the results of the reads.  No zero waits in
     a new ring, and none ever gets in.
     */
    method Drive(calls: seq<Call>) returns (results: seq<byte>)
      requires Valid() && 0 !in Queue()
      modifies this, buf
      ensures Valid() && 0 !in Queue()
      ensures var h := Run(Start(old(Queue())), EventsOf(calls));
        Queue() == h.queue && Characters(results) == h.got && Conserves(h)
    {
      hide Run;
      hide EventsOf;
      hide EventsOfCall;
      hide Queue;
      hide Characters;
      hide Conserves;
      ghost var h0 := Start(Queue());
      StartConserves(Queue());
      RunConserves(h0, EventsOf(calls));
      NothingRun(h0);
      results := [];
      assert calls[..0] == [];
      for i := 0 to |calls|
        invariant Valid() && 0 !in Queue()
        invariant var h := Run(h0, EventsOf(calls[..i])); Queue() == h.queue && Characters(results) == h.got
      {
        ghost var h := Run(h0, EventsOf(calls[..i]));
        EventsStep(h0, calls, i);
        var c := Serve(calls[i], h);
        if calls[i].Poll? {
          CharactersStep(results, c);
          results := results + [c];
        }
      }
      assert calls[..|calls|] == calls;
    }
  }

  lemma PushAllEmpty(q: seq<byte>)
    ensures PushAll(q, []) == q
  {
  }

  lemma PushAllStep(q: seq<byte>, input: seq<byte>)
    requires input != []
    ensures PushAll(q, input) == PushAll(Push(q, input[0]), input[1..])
  {
  }

  lemma {:induction false} PushAllConcat(q: seq<byte>, a: seq<byte>, b: seq<byte>)
    ensures PushAll(q, a + b) == PushAll(PushAll(q, a), b)
    decreases |a|
  {
    hide Push;
    if a == [] {
      assert a + b == b;
    } else {
      assert (a + b)[1..] == a[1..] + b;
      PushAllConcat(Push(q, a[0]), a[1..], b);
    }
  }

  // ----- Every interleaving of feeds and reads -----

  datatype Event = Feed(c: byte) | Read

  /** 512 characters that the ring dropped at once, and how many had been read by then. */
  datatype Loss = Loss(at: nat, block: seq<byte>)

  /** The waiting characters, everything read and fed so far, and what the ring lost by emptying itself. */
  datatype History = History(queue: seq<byte>, got: seq<byte>, fed: seq<byte>, lost: seq<Loss>)

  predicate Overflows(h: History, c: byte) {
    c != 0 && |h.queue| + 1 == CONSBUFSIZE
  }

  function Step(h: History, e: Event): History {
    match e
    case Feed(c) =>
      History(Push(h.queue, c), h.got, if c == 0 then h.fed else h.fed + [c],
              if Overflows(h, c) then h.lost + [Loss(|h.got|, h.queue + [c])] else h.lost)
    case Read =>
      if h.queue == [] then h else h.(queue := h.queue[1..], got := h.got + [h.queue[0]])
  }

  function Run(h: History, events: seq<Event>): History
    decreases |events|
  {
    if events == [] then h else Run(Step(h, events[0]), events[1..])
  }

  /** Nothing has been read or lost yet, and what waits has been fed. */
  function Start(q: seq<byte>): History {
    History(q, [], q, [])
  }

  const FRESH := Start([])

  /** The losses are in order, and each is of 512 characters. */
  predicate Placed(got: seq<byte>, lost: seq<Loss>) {
    && (forall k :: 0 <= k < |lost| ==> lost[k].at <= |got| && |lost[k].block| == CONSBUFSIZE)
    && (forall j, k :: 0 <= j < k < |lost| ==> lost[j].at <= lost[k].at)
  }

  /** What was read, with every lost block put back where it belongs. */
  function Merge(got: seq<byte>, lost: seq<Loss>): (fed: seq<byte>)
    requires Placed(got, lost)
    ensures |fed| == |got| + CONSBUFSIZE * |lost|
    decreases |lost|
  {
    if lost == [] then got
    else
      var last := lost[|lost| - 1];
      Merge(got[..last.at], lost[..|lost| - 1]) + last.block + got[last.at..]
  }

  /**
   Nothing is invented, duplicated or reordered: what was fed is what was read with the lost blocks
   put back, followed by what still waits.
   */
  predicate Conserves(h: History) {
    && |h.queue| < CONSBUFSIZE
    && Placed(h.got, h.lost)
    && h.fed == Merge(h.got, h.lost) + h.queue
  }

  lemma MergeReads(got: seq<byte>, lost: seq<Loss>, c: byte)
    requires Placed(got, lost)
    ensures Placed(got + [c], lost) && Merge(got + [c], lost) == Merge(got, lost) + [c]
  {
    if lost != [] {
      var last := lost[|lost| - 1];
      assert (got + [c])[..last.at] == got[..last.at] && (got + [c])[last.at..] == got[last.at..] + [c];
    }
  }

  lemma MergeLoses(got: seq<byte>, lost: seq<Loss>, block: seq<byte>)
    requires Placed(got, lost) && |block| == CONSBUFSIZE
    ensures var lost' := lost + [Loss(|got|, block)];
      Placed(got, lost') && Merge(got, lost') == Merge(got, lost) + block
  {
    var lost' := lost + [Loss(|got|, block)];
    assert lost'[..|lost|] == lost && got[..|got|] == got && got[|got|..] == [];
  }

  lemma StepConserves(h: History, e: Event)
    requires Conserves(h)
    ensures Conserves(Step(h, e)) && h.lost <= Step(h, e).lost
  {
    hide Merge;
    hide Placed;
    match e {
      case Read =>
        if h.queue != [] {
          MergeReads(h.got, h.lost, h.queue[0]);
          assert h.queue == [h.queue[0]] + h.queue[1..];
        }
      case Feed(c) =>
        if Overflows(h, c) {
          MergeLoses(h.got, h.lost, h.queue + [c]);
        }
    }
  }

  /** For every schedule of feeds and reads. */
  lemma {:induction false} RunConserves(h: History, events: seq<Event>)
    requires Conserves(h)
    ensures Conserves(Run(h, events)) && h.lost <= Run(h, events).lost
    decreases |events|
  {
    hide Step;
    hide Conserves;
    if events != [] {
      StepConserves(h, events[0]);
      RunConserves(Step(h, events[0]), events[1..]);
    }
  }

  /**
   For every schedule of feeds and reads: the characters read and those waiting are exactly the
   characters fed, in order, if and only if the backlog never reached 512.
   */
  lemma NothingLostIff(events: seq<Event>)
    ensures var h := Run(FRESH, events); h.fed == h.got + h.queue <==> h.lost == []
  {
    hide Run;
    RunConserves(FRESH, events);
  }

  /** The events never let the backlog reach 512. */
  predicate Kept(h: History, events: seq<Event>)
    decreases |events|
  {
    events == [] ||
    ((events[0].Feed? && events[0].c != 0 ==> |h.queue| + 1 < CONSBUFSIZE) && Kept(Step(h, events[0]), events[1..]))
  }

  lemma {:induction false} LossesIff(h: History, events: seq<Event>)
    requires Conserves(h)
    ensures Run(h, events).lost == h.lost <==> Kept(h, events)
    decreases |events|
  {
    hide Push;
    hide Merge;
    hide Placed;
    if events != [] {
      var next := Step(h, events[0]);
      StepConserves(h, events[0]);
      LossesIff(next, events[1..]);
      RunConserves(next, events[1..]);
    }
  }

  /** What is read is a prefix of what is fed, whenever the backlog stays at 511 or below. */
  lemma ReadsArePrefix(events: seq<Event>)
    requires Kept(FRESH, events)
    ensures var h := Run(FRESH, events); h.got <= h.fed
  {
    hide Run;
    hide Kept;
    LossesIff(FRESH, events);
    NothingLostIff(events);
  }

  // ----- The ring's calls as events -----

  /** An interrupt with what its device delivers, or a `cons_getc` that polls both devices. */
  datatype Call = Interrupt(input: seq<byte>) | Poll(serialExists: bool, serial: seq<byte>, keyboard: seq<byte>)

  function Feeds(input: seq<byte>): seq<Event> {
    seq(|input|, i requires 0 <= i < |input| => Feed(input[i]))
  }

  function EventsOfCall(call: Call): seq<Event> {
    match call
    case Interrupt(input) => Feeds(input)
    case Poll(serialExists, serial, keyboard) => Feeds((if serialExists then serial else []) + keyboard) + [Read]
  }

  function EventsOf(calls: seq<Call>): seq<Event> {
    if calls == [] then [] else EventsOf(calls[..|calls| - 1]) + EventsOfCall(calls[|calls| - 1])
  }

  /** The character that a result stands for: 0 is none. */
  function Character(c: byte): seq<byte> {
    if c == 0 then [] else [c]
  }

  /** The characters among the results. */
  function Characters(results: seq<byte>): seq<byte> {
    if results == [] then []
    else
      Characters(results[..|results| - 1]) + Character(results[|results| - 1])
  }

  lemma StartConserves(q: seq<byte>)
    requires |q| < CONSBUFSIZE
    ensures Conserves(Start(q))
  {
  }

  lemma NothingRun(h: History)
    ensures Run(h, EventsOf([])) == h && Characters([]) == []
  {
  }

  lemma EventsStep(h: History, calls: seq<Call>, i: nat)
    requires i < |calls|
    ensures Run(h, EventsOf(calls[..i + 1])) == Run(Run(h, EventsOf(calls[..i])), EventsOfCall(calls[i]))
  {
    hide Run;
    assert calls[..i + 1][..i] == calls[..i];
    RunConcat(h, EventsOf(calls[..i]), EventsOfCall(calls[i]));
  }

  lemma CharactersStep(results: seq<byte>, c: byte)
    ensures Characters(results + [c]) == Characters(results) + Character(c)
  {
    assert (results + [c])[..|results|] == results;
  }

  lemma {:induction false} RunConcat(h: History, a: seq<Event>, b: seq<Event>)
    ensures Run(h, a + b) == Run(Run(h, a), b)
    decreases |a|
  {
    hide Step;
    if a == [] {
      assert a + b == b;
    } else {
      assert (a + b)[1..] == a[1..] + b;
      RunConcat(Step(h, a[0]), a[1..], b);
    }
  }

  /** `PushAll` is the queue of a run of feeds, which reads nothing and lets no zero in. */
  lemma {:induction false} InterruptRun(h: History, input: seq<byte>)
    ensures var h' := Run(h, Feeds(input));
      h'.queue == PushAll(h.queue, input) && h'.got == h.got && (0 !in h.queue ==> 0 !in h'.queue)
    decreases |input|
  {
    if input != [] {
      assert Feeds(input)[1..] == Feeds(input[1..]);
      InterruptRun(Step(h, Feed(input[0])), input[1..]);
    }
  }

  /** A poll reads the oldest character that waits after the feeds, if one does. */
  lemma PollRun(h: History, serialExists: bool, serial: seq<byte>, keyboard: seq<byte>)
    ensures var q := PushAll(h.queue, (if serialExists then serial else []) + keyboard);
      var h' := Run(h, EventsOfCall(Poll(serialExists, serial, keyboard)));
      && (q == [] ==> h'.queue == [] && h'.got == h.got)
      && (q != [] ==> h'.queue == q[1..] && h'.got == h.got + [q[0]])
      && (0 !in h.queue ==> 0 !in q && 0 !in h'.queue)
  {
    hide PushAll;
    var input := (if serialExists then serial else []) + keyboard;
    InterruptRun(h, input);
    RunConcat(h, Feeds(input), [Read]);
  }
}
