/** Message threads and their normal form (imapserver/thread.go). */
module Threads {
  import opened Prelude

  /** A chain of messages, each the parent of the next, and the sub-threads that
      answer the last one. */
  datatype Thread = Thread(chain: seq<uint32>, subs: seq<Thread>)

  /** Continues the chain while there is a single sub-thread. */
  function Absorb(chain: seq<uint32>, subs: seq<Thread>): (seq<uint32>, seq<Thread>)
    decreases subs
  {
    if |subs| == 1 then Absorb(chain + subs[0].chain, subs[0].subs) else (chain, subs)
  }

  /** The form the THREAD grammar can express; None when no message remains. */
  function Normalize(t: Thread): Option<Thread>
    decreases t, 1
  {
    var (chain, subs) := Absorb(t.chain, NormalizeAll(t.subs));
    if chain == [] && subs == [] then None else Some(Thread(chain, subs))
  }

  function NormalizeAll(ts: seq<Thread>): seq<Thread>
    decreases ts, 0
  {
    if ts == [] then []
    else
      var rest := NormalizeAll(ts[..|ts| - 1]);
      match Normalize(ts[|ts| - 1])
      case None => rest
      case Some(t) => rest + [t]
  }

  // ---------------------------------------------------------------------
  // What a thread says
  // ---------------------------------------------------------------------

  /** A message and its nearest ancestor, if it has one. */
  type Link = (uint32, Option<uint32>)

  ghost function Last(chain: seq<uint32>, above: Option<uint32>): Option<uint32> {
    if chain == [] then above else Some(chain[|chain| - 1])
  }

  ghost function ChainLinks(chain: seq<uint32>, above: Option<uint32>): seq<Link> {
    if chain == [] then []
    else ChainLinks(chain[..|chain| - 1], above) + [(chain[|chain| - 1], Last(chain[..|chain| - 1], above))]
  }

  /** Every message with its nearest ancestor, in pre-order. */
  ghost function Links(t: Thread, above: Option<uint32>): seq<Link>
    decreases t, 1
  {
    ChainLinks(t.chain, above) + LinksAll(t.subs, Last(t.chain, above))
  }

  ghost function LinksAll(ts: seq<Thread>, above: Option<uint32>): seq<Link>
    decreases ts, 0
  {
    if ts == [] then [] else LinksAll(ts[..|ts| - 1], above) + Links(ts[|ts| - 1], above)
  }

  /** No node is empty and none has a single sub-thread. */
  ghost predicate Normal(t: Thread) {
    && |t.subs| != 1
    && (t.chain != [] || t.subs != [])
    && forall i :: 0 <= i < |t.subs| ==> Normal(t.subs[i])
  }

  ghost predicate AllNormal(ts: seq<Thread>) {
    forall i :: 0 <= i < |ts| ==> Normal(ts[i])
  }

  lemma {:induction false} ChainLinksConcat(a: seq<uint32>, b: seq<uint32>, above: Option<uint32>)
    ensures ChainLinks(a + b, above) == ChainLinks(a, above) + ChainLinks(b, Last(a, above))
    ensures Last(a + b, above) == Last(b, Last(a, above))
    decreases |b|
  {
    if b == [] {
      assert a + b == a;
    } else {
      var n := |b| - 1;
      assert (a + b)[..|a| + n] == a + b[..n];
      ChainLinksConcat(a, b[..n], above);
    }
  }

  lemma {:induction false} AbsorbKeeps(chain: seq<uint32>, subs: seq<Thread>, above: Option<uint32>)
    ensures var (c, s) := Absorb(chain, subs);
            Links(Thread(c, s), above) == Links(Thread(chain, subs), above)
    decreases subs
  {
    if |subs| == 1 {
      var t := subs[0];
      AbsorbKeeps(chain + t.chain, t.subs, above);
      ChainLinksConcat(chain, t.chain, above);
      assert subs[..0] == [];
      assert LinksAll(subs, Last(chain, above)) == Links(t, Last(chain, above));
    }
  }

  /** Normalising keeps every message, their pre-order and each one's nearest
      ancestor. */
  lemma {:induction false} NormalizeKeeps(t: Thread, above: Option<uint32>)
    ensures Normalize(t).None? ==> Links(t, above) == []
    ensures Normalize(t).Some? ==> Links(Normalize(t).value, above) == Links(t, above)
    decreases t, 1
  {
    NormalizeAllKeeps(t.subs, Last(t.chain, above));
    AbsorbKeeps(t.chain, NormalizeAll(t.subs), above);
  }

  lemma {:induction false} NormalizeAllKeeps(ts: seq<Thread>, above: Option<uint32>)
    ensures LinksAll(NormalizeAll(ts), above) == LinksAll(ts, above)
    decreases ts, 0
  {
    if ts != [] {
      var n := |ts| - 1;
      NormalizeAllKeeps(ts[..n], above);
      NormalizeKeeps(ts[n], above);
      var rest := NormalizeAll(ts[..n]);
      if Normalize(ts[n]).Some? {
        assert (rest + [Normalize(ts[n]).value])[..|rest|] == rest;
      }
    }
  }

  lemma {:induction false} AbsorbNormal(chain: seq<uint32>, subs: seq<Thread>)
    requires AllNormal(subs)
    ensures AllNormal(Absorb(chain, subs).1) && |Absorb(chain, subs).1| != 1
    ensures (Absorb(chain, subs).0 != [] || Absorb(chain, subs).1 != []) <==> (chain != [] || subs != [])
    decreases subs
  {
    if |subs| == 1 {
      assert Normal(subs[0]);
      AbsorbNormal(chain + subs[0].chain, subs[0].subs);
    }
  }

  lemma {:induction false} NormalizeNormal(t: Thread)
    ensures Normalize(t).Some? ==> Normal(Normalize(t).value)
    decreases t, 1
  {
    NormalizeAllNormal(t.subs);
    AbsorbNormal(t.chain, NormalizeAll(t.subs));
  }

  lemma {:induction false} NormalizeAllNormal(ts: seq<Thread>)
    ensures AllNormal(NormalizeAll(ts))
    decreases ts, 0
  {
    if ts != [] {
      NormalizeAllNormal(ts[..|ts| - 1]);
      NormalizeNormal(ts[|ts| - 1]);
    }
  }

  lemma {:induction false} NormalHasMessage(t: Thread)
    requires Normal(t)
    ensures Links(t, None) != []
  {
    LinksLength(t, None, None);
    if t.chain == [] {
      assert Normal(t.subs[|t.subs| - 1]);
      NormalHasMessage(t.subs[|t.subs| - 1]);
    }
  }

  lemma {:induction false} LinksLength(t: Thread, a: Option<uint32>, b: Option<uint32>)
    ensures |Links(t, a)| == |Links(t, b)|
    decreases t, 1
  {
    ChainLinksLength(t.chain, a);
    ChainLinksLength(t.chain, b);
    LinksAllLength(t.subs, Last(t.chain, a), Last(t.chain, b));
  }

  lemma {:induction false} LinksAllLength(ts: seq<Thread>, a: Option<uint32>, b: Option<uint32>)
    ensures |LinksAll(ts, a)| == |LinksAll(ts, b)|
    decreases ts, 0
  {
    if ts != [] {
      LinksAllLength(ts[..|ts| - 1], a, b);
      LinksLength(ts[|ts| - 1], a, b);
    }
  }

  lemma {:induction false} ChainLinksLength(chain: seq<uint32>, above: Option<uint32>)
    ensures |ChainLinks(chain, above)| == |chain|
  {
    if chain != [] {
      ChainLinksLength(chain[..|chain| - 1], above);
    }
  }

  /** Normalising fails exactly on threads without messages. */
  lemma FailsIffEmpty(t: Thread)
    ensures Normalize(t).None? <==> Links(t, None) == []
  {
    NormalizeKeeps(t, None);
    NormalizeNormal(t);
    if Normalize(t).Some? {
      NormalHasMessage(Normalize(t).value);
    }
  }

  lemma {:induction false} NormalFixed(t: Thread)
    requires Normal(t)
    ensures Normalize(t) == Some(t)
    decreases t, 1
  {
    NormalAllFixed(t.subs);
  }

  lemma {:induction false} NormalAllFixed(ts: seq<Thread>)
    requires AllNormal(ts)
    ensures NormalizeAll(ts) == ts
    decreases ts, 0
  {
    if ts != [] {
      NormalAllFixed(ts[..|ts| - 1]);
      NormalFixed(ts[|ts| - 1]);
      assert ts == ts[..|ts| - 1] + [ts[|ts| - 1]];
    }
  }

  /** Normalising twice is normalising once. */
  lemma Idempotent(t: Thread)
    requires Normalize(t).Some?
    ensures Normalize(Normalize(t).value) == Normalize(t)
  {
    NormalizeNormal(t);
    NormalFixed(Normalize(t).value);
  }
}
