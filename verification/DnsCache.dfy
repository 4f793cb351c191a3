/** The answer cache: entries under a text key, each with the second at which it expires. */
module DnsCache {
  import opened Bytes
  import opened DnsMessage
  import opened Wrappers

  datatype Entry = Entry(answers: seq<Answer>, expiresAt: int)

  type Entries = map<bytes, Entry>

  const COLON: byte := 58
  const ZERO: byte := 48
  const DEFAULT_TTL: nat := 300

  function Decimal(n: nat): (s: bytes)
    ensures s != [] && COLON !in s
  {
    if n < 10 then [ZERO + n as byte] else Decimal(n / 10) + [ZERO + (n % 10) as byte]
  }

  /** `{name}:{type}` */
  function Key(name: bytes, rtype: nat): bytes {
    name + [COLON] + Decimal(rtype)
  }

  lemma {:induction false} DecimalInjective(m: nat, n: nat)
    requires Decimal(m) == Decimal(n)
    ensures m == n
    decreases m
  {
    var s := Decimal(m);
    assert s[|s| - 1] == ZERO + (m % 10) as byte == ZERO + (n % 10) as byte;
    if m >= 10 {
      assert |Decimal(m / 10)| > 0;
    }
    if n >= 10 {
      assert |Decimal(n / 10)| > 0;
    }
    assert m < 10 <==> |s| == 1;
    if m >= 10 {
      assert Decimal(m / 10) == s[..|s| - 1] == Decimal(n / 10);
      DecimalInjective(m / 10, n / 10);
    }
  }

  /** A name may hold colons, yet no two (name, type) pairs share a key. */
  lemma KeyInjective(name: bytes, rtype: nat, name': bytes, rtype': nat)
    ensures Key(name, rtype) == Key(name', rtype') <==> name == name' && rtype == rtype'
  {
    if Key(name, rtype) == Key(name', rtype') {
      var k, d, d' := Key(name, rtype), Decimal(rtype), Decimal(rtype');
      assert k[|name|] == COLON && k[|name'|] == COLON;
      assert forall i :: |name| < i < |k| ==> k[i] == d[i - |name| - 1];
      assert forall i :: |name'| < i < |k| ==> k[i] == d'[i - |name'| - 1];
      assert |name| == |name'|;
      assert name == k[..|name|] == name';
      assert d == k[|name| + 1..] == d';
      DecimalInjective(rtype, rtype');
    }
  }

  lemma KeyOfA()
    ensures Key([97], 28) == [97, 58, 50, 56]
  {
    assert Decimal(2) == [50];
    assert Decimal(28) == Decimal(2) + [56];
  }

  function Max(a: nat, b: nat): nat {
    if a >= b then a else b
  }

  /** How long a set of answers is kept: the largest TTL, but at least five minutes. */
  function Lifetime(answers: seq<Answer>): nat {
    if answers == [] then DEFAULT_TTL
    else Max(Lifetime(answers[..|answers| - 1]), answers[|answers| - 1].ttl)
  }

  lemma {:induction false} LifetimeIsLongest(answers: seq<Answer>)
    ensures Lifetime(answers) >= 300
    ensures forall i :: 0 <= i < |answers| ==> Lifetime(answers) >= answers[i].ttl
    ensures Lifetime(answers) == 300 || exists i :: 0 <= i < |answers| && Lifetime(answers) == answers[i].ttl
  {
    if answers != [] {
      var front := answers[..|answers| - 1];
      LifetimeIsLongest(front);
      forall i | 0 <= i < |answers|
        ensures Lifetime(answers) >= answers[i].ttl
      {
        assert i < |front| ==> answers[i] == front[i];
      }
      if Lifetime(answers) == Lifetime(front) != 300 {
        var i :| 0 <= i < |front| && Lifetime(front) == front[i].ttl;
        assert answers[i].ttl == Lifetime(answers);
      }
    }
  }

  function Lookup(entries: Entries, name: bytes, rtype: nat, now: int): Option<seq<Answer>> {
    var key := Key(name, rtype);
    if key in entries && now < entries[key].expiresAt then Some(entries[key].answers) else None
  }

  function Stored(entries: Entries, name: bytes, rtype: nat, answers: seq<Answer>, now: int): Entries {
    entries[Key(name, rtype) := Entry(answers, now + Lifetime(answers))]
  }

  function Cleaned(entries: Entries, now: int): Entries {
    map k | k in entries && now < entries[k].expiresAt :: entries[k]
  }

  class Cache {
    var entries: Entries

    constructor ()
      ensures entries == map[]
    {
      entries := map[];
    }

    method Get(name: bytes, rtype: nat, now: int) returns (r: Option<seq<Answer>>)
      ensures r.Some? <==> Key(name, rtype) in entries && now < entries[Key(name, rtype)].expiresAt
      ensures r.Some? ==> r.value == entries[Key(name, rtype)].answers
      ensures r == Lookup(entries, name, rtype, now)
    {
      var key := Key(name, rtype);
      if key in entries {
        var entry := entries[key];
        if now < entry.expiresAt {
          return Some(entry.answers);
        }
      }
      return None;
    }

    method Put(name: bytes, rtype: nat, answers: seq<Answer>, now: int)
      modifies this
      ensures entries == Stored(old(entries), name, rtype, answers, now)
    {
      var maxTtl := DEFAULT_TTL;
      for i := 0 to |answers|
        invariant maxTtl == Lifetime(answers[..i])
      {
        assert answers[..i + 1][..i] == answers[..i];
        maxTtl := Max(maxTtl, answers[i].ttl);
      }
      assert answers[..|answers|] == answers;
      entries := entries[Key(name, rtype) := Entry(answers, now + maxTtl)];
    }

    /** First the expired keys are collected, then they are removed. */
    method Cleanup(now: int)
      modifies this
      ensures entries == Cleaned(old(entries), now)
    {
      var todo, expired: set<bytes> := entries.Keys, {};
      while todo != {}
        invariant todo <= entries.Keys && entries == old(entries)
        invariant forall k :: k in expired <==> k in entries.Keys - todo && now >= entries[k].expiresAt
        decreases todo
      {
        var key :| key in todo;
        todo := todo - {key};
        if now >= entries[key].expiresAt {
          expired := expired + {key};
        }
      }
      while expired != {}
        invariant expired <= entries.Keys
        invariant forall k :: k in entries <==> k in old(entries) && (k in expired || now < old(entries)[k].expiresAt)
        invariant forall k :: k in entries ==> entries[k] == old(entries)[k]
        invariant forall k :: k in expired ==> now >= old(entries)[k].expiresAt
        decreases expired
      {
        var key :| key in expired;
        expired := expired - {key};
        entries := entries - {key};
      }
    }
  }

  /** A cleanup changes an answer only when read with a clock that has gone back past an expiry. */
  lemma CleanupVisibleIff(entries: Entries, name: bytes, rtype: nat, cleanedAt: int, now: int)
    ensures Lookup(Cleaned(entries, cleanedAt), name, rtype, now) != Lookup(entries, name, rtype, now) <==>
            && Key(name, rtype) in entries
            && now < entries[Key(name, rtype)].expiresAt <= cleanedAt
  {
  }

  // Whole histories of one cache.

  datatype Op =
    | Put(name: bytes, rtype: nat, answers: seq<Answer>, at: int)
    | Cleanup(at: int)

  function Replay(ops: seq<Op>): Entries {
    if ops == [] then map[]
    else
      var before := Replay(ops[..|ops| - 1]);
      match ops[|ops| - 1]
      case Put(name, rtype, answers, at) => Stored(before, name, rtype, answers, at)
      case Cleanup(at) => Cleaned(before, at)
  }

  /** The latest put for exactly this name and type. */
  function Latest(ops: seq<Op>, name: bytes, rtype: nat): Option<Op> {
    if ops == [] then None
    else
      var last := ops[|ops| - 1];
      if last.Put? && last.name == name && last.rtype == rtype then Some(last)
      else Latest(ops[..|ops| - 1], name, rtype)
  }

  ghost predicate ClockForward(ops: seq<Op>, now: int) {
    && (forall i, j :: 0 <= i < j < |ops| ==> ops[i].at <= ops[j].at)
    && (forall i :: 0 <= i < |ops| ==> ops[i].at <= now)
  }

  lemma {:induction false} LatestIsPut(ops: seq<Op>, name: bytes, rtype: nat)
    ensures Latest(ops, name, rtype).Some? ==> Latest(ops, name, rtype).value.Put?
    decreases |ops|
  {
    if ops != [] {
      LatestIsPut(ops[..|ops| - 1], name, rtype);
    }
  }

  /**
   * At any time after any history with a clock that never goes back, a lookup gives the answers
   * of the latest put for that name and type while they live, and nothing otherwise.
   */
  lemma {:induction false} LookupIsLatest(ops: seq<Op>, name: bytes, rtype: nat, now: int)
    requires ClockForward(ops, now)
    ensures Lookup(Replay(ops), name, rtype, now) ==
            match Latest(ops, name, rtype)
            case Some(Put(_, _, answers, at)) => if now < at + Lifetime(answers) then Some(answers) else None
            case _ => None
    decreases |ops|
  {
    LatestIsPut(ops, name, rtype);
    if ops != [] {
      var front, last := ops[..|ops| - 1], ops[|ops| - 1];
      assert forall i :: 0 <= i < |front| ==> front[i] == ops[i];
      LookupIsLatest(front, name, rtype, now);
      match last
      case Put(name', rtype', _, _) =>
        KeyInjective(name, rtype, name', rtype');
      case Cleanup(at) =>
        CleanupVisibleIff(Replay(front), name, rtype, at, now);
    }
  }
}
