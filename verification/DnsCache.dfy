/** The record cache of the TCP name server (app/dns/nameserver_tcp.go, app/dns/dnscommon.go). */
module DnsCache {
  import opened Basics

  type Domain = string
  type Address = Bytes                  // 4 or 16 bytes

  datatype IPRecord = IPRecord(ips: seq<Address>, expire: int, rcode: nat)
  datatype Record = Record(a: Option<IPRecord>, aaaa: Option<IPRecord>)
  datatype Family = A | AAAA | Other    // the request type; anything else leaves the cache alone

  type Cache = map<Domain, Record>

  datatype Answer = Addresses(ips: seq<Address>) | NotFound | RCodeError(code: nat) | EmptyResponse

  /** getIPs: a missing or expired record is not found. */
  function GetIPs(r: Option<IPRecord>, now: int): (seq<Address>, Option<Answer>) {
    if r.None? || r.value.expire < now then ([], Some(NotFound))
    else if r.value.rcode != 0 then ([], Some(RCodeError(r.value.rcode)))
    else (r.value.ips, None)
  }

  predicate IsNewer(base: Option<IPRecord>, rec: IPRecord) {
    base.None? || base.value.expire < rec.expire
  }

  /** findIPsForDomain; the clock is read once for each family. */
  function Find(m: Cache, d: Domain, v4: bool, v6: bool, now4: int, now6: int): Answer {
    if d !in m then NotFound
    else
      var (a, e4) := if v4 then GetIPs(m[d].a, now4) else ([], None);
      var (aaaa, e6) := if v6 then GetIPs(m[d].aaaa, now6) else ([], None);
      var ips := a + aaaa;
      if |ips| > 0 then Addresses(ips)
      else if e6.Some? then e6.value
      else if e4.Some? then e4.value
      else EmptyResponse
  }

  /** The addresses of an AAAA answer that are IPv6 ones. */
  function OnlyIPv6(ips: seq<Address>): seq<Address>
    decreases |ips|
  {
    if ips == [] then []
    else
      var x := ips[|ips| - 1];
      OnlyIPv6(ips[..|ips| - 1]) + if |x| == 16 then [x] else []
  }

  function Base(m: Cache, d: Domain): Record {
    if d in m then m[d] else Record(None, None)
  }

  /** updateIP: the newer record wins. */
  function Update(m: Cache, d: Domain, f: Family, rec: IPRecord): Cache {
    var base := Base(m, d);
    match f
    case A => if IsNewer(base.a, rec) then m[d := base.(a := Some(rec))] else m
    case AAAA =>
      var rec6 := rec.(ips := OnlyIPv6(rec.ips));
      if IsNewer(base.aaaa, rec6) then m[d := base.(aaaa := Some(rec6))] else m
    case Other => m
  }

  function Unexpired(r: Option<IPRecord>, now: int): Option<IPRecord> {
    if r.Some? && r.value.expire < now then None else r
  }

  function Swept(r: Record, now: int): Record {
    Record(Unexpired(r.a, now), Unexpired(r.aaaa, now))
  }

  /** Cleanup: expired records go, and domains left without any. */
  function Cleaned(m: Cache, now: int): Cache {
    map d | d in m && Swept(m[d], now) != Record(None, None) :: Swept(m[d], now)
  }

  class TCPNameServer {
    var ips: Cache

    constructor ()
      ensures ips == map[]
    {
      ips := map[];
    }

    /** Cleanup: false stands for "nothing to do", which stops the periodic task. */
    method Cleanup(now: int) returns (ok: bool)
      modifies this
      ensures ips == Cleaned(old(ips), now) && ok == (old(ips) != map[])
    {
      ok := |ips| != 0;
      if !ok {
        return;
      }
      var was := ips;
      var left := was.Keys;
      while left != {}
        invariant left <= was.Keys && ips.Keys <= was.Keys
        invariant forall d :: d in left ==> d in ips && ips[d] == was[d]
        invariant forall d :: d in was && d !in left ==>
          if Swept(was[d], now) == Record(None, None) then d !in ips else d in ips && ips[d] == Swept(was[d], now)
        decreases |left|
      {
        var d :| d in left;
        var record := was[d];
        if record.a.Some? && record.a.value.expire < now {
          record := record.(a := None);
        }
        if record.aaaa.Some? && record.aaaa.value.expire < now {
          record := record.(aaaa := None);
        }
        assert record == Swept(was[d], now);
        if record.a.None? && record.aaaa.None? {
          ips := ips - {d};
        } else {
          ips := ips[d := record];
        }
        left := left - {d};
      }
    }

    method UpdateIP(d: Domain, f: Family, rec: IPRecord)
      modifies this
      ensures ips == Update(old(ips), d, f, rec)
    {
      var base := if d in ips then ips[d] else Record(None, None);
      var updated := false;
      match f {
        case A =>
          if IsNewer(base.a, rec) {
            base, updated := base.(a := Some(rec)), true;
          }
        case AAAA =>
          var addr: seq<Address> := [];
          for i := 0 to |rec.ips|
            invariant addr == OnlyIPv6(rec.ips[..i])
          {
            assert rec.ips[..i + 1][..i] == rec.ips[..i];
            if |rec.ips[i]| == 16 {
              addr := addr + [rec.ips[i]];
            }
          }
          assert rec.ips[..|rec.ips|] == rec.ips;
          var rec6 := rec.(ips := addr);
          if IsNewer(base.aaaa, rec6) {
            base, updated := base.(aaaa := Some(rec6)), true;
          }
        case Other =>
      }
      if updated {
        ips := ips[d := base];
      }
    }

    /** findIPsForDomain: only addresses of records that have not expired. */
    method FindIPs(d: Domain, v4: bool, v6: bool, now4: int, now6: int) returns (r: Answer)
      ensures r == Find(ips, d, v4, v6, now4, now6)
    {
      if d !in ips {
        return NotFound;
      }
      var record := ips[d];
      var found: seq<Address> := [];
      var lastErr: Option<Answer> := None;
      if v4 {
        var (a, err) := GetIPs(record.a, now4);
        if err.Some? {
          lastErr := err;
        }
        found := found + a;
      }
      if v6 {
        var (aaaa, err) := GetIPs(record.aaaa, now6);
        if err.Some? {
          lastErr := err;
        }
        found := found + aaaa;
      }
      if |found| > 0 {
        return Addresses(found);
      }
      return if lastErr.Some? then lastErr.value else EmptyResponse;
    }
  }

  // ---- cleanup is invisible ----

  /** Two caches that no lookup from `now` on tells apart. */
  ghost predicate Alike(m1: Cache, m2: Cache, now: int) {
    forall d: Domain :: Swept(Base(m1, d), now) == Swept(Base(m2, d), now)
  }

  lemma AlikeLater(m1: Cache, m2: Cache, now: int, later: int)
    requires Alike(m1, m2, now) && now <= later
    ensures Alike(m1, m2, later)
  {
    forall d: Domain ensures Swept(Base(m1, d), later) == Swept(Base(m2, d), later) {
      assert Swept(Base(m1, d), now) == Swept(Base(m2, d), now);
      SweptTwice(Base(m1, d), now, later);
      SweptTwice(Base(m2, d), now, later);
    }
  }

  lemma SweptTwice(r: Record, now: int, later: int)
    requires now <= later
    ensures Swept(Swept(r, now), later) == Swept(r, later)
  {
  }

  lemma CleanedAlike(m: Cache, now: int)
    ensures Alike(Cleaned(m, now), m, now)
  {
    forall d: Domain ensures Swept(Base(Cleaned(m, now), d), now) == Swept(Base(m, d), now) {
      SweptTwice(Base(m, d), now, now);
      if d in m && d !in Cleaned(m, now) {
        assert Swept(m[d], now) == Record(None, None);
      }
    }
  }

  /** The newer-wins rule keeps caches alike although it also compares with expired records. */
  lemma UpdateAlike(m1: Cache, m2: Cache, now: int, d: Domain, f: Family, rec: IPRecord)
    requires Alike(m1, m2, now)
    ensures Alike(Update(m1, d, f, rec), Update(m2, d, f, rec), now)
  {
    UpdateSwept(m1, m2, now, d, f, rec);
    forall x: Domain ensures Swept(Base(Update(m1, d, f, rec), x), now) == Swept(Base(Update(m2, d, f, rec), x), now) {
      assert Swept(Base(m1, x), now) == Swept(Base(m2, x), now);
      if x != d {
        assert Base(Update(m1, d, f, rec), x) == Base(m1, x) && Base(Update(m2, d, f, rec), x) == Base(m2, x);
      }
    }
  }

  lemma UpdateSwept(m1: Cache, m2: Cache, now: int, d: Domain, f: Family, rec: IPRecord)
    requires Alike(m1, m2, now)
    ensures Swept(Base(Update(m1, d, f, rec), d), now) == Swept(Base(Update(m2, d, f, rec), d), now)
  {
    hide OnlyIPv6;
    assert Swept(Base(m1, d), now) == Swept(Base(m2, d), now);
  }

  /** No clock that the lookup reads shows less than `now`: one is read for each family asked for. */
  predicate ReadsFrom(now: int, v4: bool, v6: bool, now4: int, now6: int) {
    (v4 ==> now <= now4) && (v6 ==> now <= now6)
  }

  lemma FindAlike(m1: Cache, m2: Cache, now: int, d: Domain, v4: bool, v6: bool, now4: int, now6: int)
    requires Alike(m1, m2, now) && ReadsFrom(now, v4, v6, now4, now6) && (v4 || v6)
    ensures Find(m1, d, v4, v6, now4, now6) == Find(m2, d, v4, v6, now4, now6)
  {
    assert Swept(Base(m1, d), now) == Swept(Base(m2, d), now);
    FindSwept(m1, d, v4, v6, now, now4, now6);
    FindSwept(m2, d, v4, v6, now, now4, now6);
  }

  /** A lookup of some family sees only what a sweep leaves; a missing domain answers as an empty record. */
  lemma FindSwept(m: Cache, d: Domain, v4: bool, v6: bool, now: int, now4: int, now6: int)
    requires ReadsFrom(now, v4, v6, now4, now6) && (v4 || v6)
    ensures Find(m, d, v4, v6, now4, now6) == Find(map[d := Swept(Base(m, d), now)], d, v4, v6, now4, now6)
  {
  }

  /**
   * A lookup tells whether a cleanup came before it exactly when it asks for no family and the cleanup
   * left the domain without a record.
   */
  lemma CleanupSeenExactly(m: Cache, d: Domain, v4: bool, v6: bool, now: int, now4: int, now6: int)
    requires ReadsFrom(now, v4, v6, now4, now6)
    ensures Find(Cleaned(m, now), d, v4, v6, now4, now6) == Find(m, d, v4, v6, now4, now6)
       <==> v4 || v6 || d !in m || Swept(m[d], now) != Record(None, None)
  {
    if v4 || v6 {
      CleanedAlike(m, now);
      FindAlike(Cleaned(m, now), m, now, d, v4, v6, now4, now6);
    }
  }

  datatype Op =
    | UpdateOp(d: Domain, f: Family, rec: IPRecord)
    | LookupOp(name: Domain, v4: bool, v6: bool, now4: int, now6: int)
    | CleanupOp(now: int)

  predicate LooksFrom(op: Op, now: int) {
    op.LookupOp? ==> ReadsFrom(now, op.v4, op.v6, op.now4, op.now6)
  }

  /**
   * Every lookup reads the clock no earlier than every cleanup before it did. In the order in which the
   * operations hold the lock this always holds: a cleanup reads the clock before it takes the lock, a
   * lookup after it has released it. A later cleanup may well carry an earlier time than a lookup.
   */
  predicate Clocked(ops: seq<Op>) {
    forall i, j :: 0 <= i < j < |ops| && ops[i].CleanupOp? ==> LooksFrom(ops[j], ops[i].now)
  }

  /** What the lookups of a run return. */
  function Answers(m: Cache, ops: seq<Op>): seq<Answer>
    decreases |ops|
  {
    if ops == [] then []
    else match ops[0]
      case UpdateOp(d, f, rec) => Answers(Update(m, d, f, rec), ops[1..])
      case LookupOp(d, v4, v6, now4, now6) => [Find(m, d, v4, v6, now4, now6)] + Answers(m, ops[1..])
      case CleanupOp(now) => Answers(Cleaned(m, now), ops[1..])
  }

  function WithoutCleanups(ops: seq<Op>): seq<Op>
    decreases |ops|
  {
    if ops == [] then [] else (if ops[0].CleanupOp? then [] else [ops[0]]) + WithoutCleanups(ops[1..])
  }

  predicate SomeFamily(ops: seq<Op>) {
    forall i :: 0 <= i < |ops| && ops[i].LookupOp? ==> ops[i].v4 || ops[i].v6
  }

  lemma {:induction false} AlikeAnswers(m1: Cache, m2: Cache, ops: seq<Op>, now: int)
    requires Alike(m1, m2, now) && Clocked(ops) && SomeFamily(ops)
    requires forall i :: 0 <= i < |ops| ==> LooksFrom(ops[i], now)
    ensures Answers(m1, ops) == Answers(m2, WithoutCleanups(ops))
    decreases |ops|
  {
    if ops != [] {
      hide Find, Update, Cleaned, Alike;
      var op, rest := ops[0], ops[1..];
      var kept := WithoutCleanups(rest);
      match op
      case UpdateOp(d, f, rec) =>
        UpdateAlike(m1, m2, now, d, f, rec);
        AlikeAnswers(Update(m1, d, f, rec), Update(m2, d, f, rec), rest, now);
        assert ([op] + kept)[1..] == kept;
      case LookupOp(d, v4, v6, now4, now6) =>
        FindAlike(m1, m2, now, d, v4, v6, now4, now6);
        AlikeAnswers(m1, m2, rest, now);
        assert ([op] + kept)[1..] == kept;
      case CleanupOp(at) =>
        var t := if now <= at then at else now;
        CleanedAlike(m1, at);
        AlikeLater(Cleaned(m1, at), m1, at, t);
        AlikeLater(m1, m2, now, t);
        AlikeTransitive(Cleaned(m1, at), m1, m2, t);
        AlikeAnswers(Cleaned(m1, at), m2, rest, t);
        assert [] + kept == kept;
    }
  }

  lemma AlikeTransitive(m1: Cache, m2: Cache, m3: Cache, now: int)
    requires Alike(m1, m2, now) && Alike(m2, m3, now)
    ensures Alike(m1, m3, now)
  {
    forall d: Domain ensures Swept(Base(m1, d), now) == Swept(Base(m3, d), now) {
      assert Swept(Base(m1, d), now) == Swept(Base(m2, d), now);
    }
  }

  /** Cleanups anywhere among updates and lookups change no lookup that asks for some family. */
  lemma CleanupInvisible(ops: seq<Op>)
    requires Clocked(ops) && SomeFamily(ops)
    ensures Answers(map[], ops) == Answers(map[], WithoutCleanups(ops))
  {
    var now := EarliestRead(ops);
    AlikeAnswers(map[], map[], ops, now);
  }

  lemma {:induction false} EarliestRead(ops: seq<Op>) returns (now: int)
    ensures forall i :: 0 <= i < |ops| ==> LooksFrom(ops[i], now)
  {
    now := 0;
    for n := 0 to |ops|
      invariant forall i :: 0 <= i < n ==> LooksFrom(ops[i], now)
    {
      if ops[n].LookupOp? {
        now := Min(now, Min(ops[n].now4, ops[n].now6));
      }
    }
  }

  /** An input: one expired record. The answer is "empty" while it is there, "not found" once it is swept. */
  lemma NoFamilySeesCleanup(d: Domain, rec: IPRecord, now: int)
    requires rec.expire < now
    ensures var m := Update(map[], d, A, rec);
            && Find(m, d, false, false, now, now) == EmptyResponse
            && Find(Cleaned(m, now), d, false, false, now, now) == NotFound
  {
  }

  /** Every address returned comes from a record of that domain which had not expired. */
  lemma NoExpiredAddress(m: Cache, d: Domain, v4: bool, v6: bool, now4: int, now6: int, x: Address)
    requires Find(m, d, v4, v6, now4, now6).Addresses? && x in Find(m, d, v4, v6, now4, now6).ips
    ensures d in m
    ensures (v4 && m[d].a.Some? && x in m[d].a.value.ips && m[d].a.value.expire >= now4 && m[d].a.value.rcode == 0)
         || (v6 && m[d].aaaa.Some? && x in m[d].aaaa.value.ips && m[d].aaaa.value.expire >= now6
           && m[d].aaaa.value.rcode == 0)
  {
  }

  // ---- what a lookup answers ----

  /** A record that a lookup at `now` can use, and one that reports an error. */
  predicate Usable(r: Option<IPRecord>, now: int) {
    r.Some? && r.value.expire >= now && r.value.rcode == 0
  }

  predicate Refused(r: Option<IPRecord>, now: int) {
    r.Some? && r.value.expire >= now && r.value.rcode != 0
  }

  predicate Missing(r: Option<IPRecord>, now: int) {
    r.None? || r.value.expire < now
  }

  /** The addresses of a family, if it is asked for and its record can be used. */
  function Given(asked: bool, r: Option<IPRecord>, now: int): seq<Address> {
    if asked && Usable(r, now) then r.value.ips else []
  }

  /**
   * What a lookup answers, from the records alone: the usable IPv4 addresses and then the IPv6 ones, if there is any
   * address; else the error of the last family asked for that has one, IPv6 before IPv4; else that there is none.
   */
  lemma LookupExactly(m: Cache, d: Domain, v4: bool, v6: bool, now4: int, now6: int)
    ensures var r, answer := Base(m, d), Find(m, d, v4, v6, now4, now6);
            var ips := Given(v4, r.a, now4) + Given(v6, r.aaaa, now6);
            && (answer.Addresses? <==> ips != [])
            && (answer.Addresses? ==> answer.ips == ips)
            && (answer.NotFound? <==>
                  ips == [] && (d !in m || (v6 && Missing(r.aaaa, now6))
                                || (v4 && Missing(r.a, now4) && (v6 ==> Usable(r.aaaa, now6)))))
            && (forall code :: answer == RCodeError(code) <==>
                  ips == [] && ((v6 && Refused(r.aaaa, now6) && r.aaaa.value.rcode == code)
                                || (v4 && Refused(r.a, now4) && r.a.value.rcode == code
                                  && (v6 ==> Usable(r.aaaa, now6)))))
            && (answer.EmptyResponse? <==>
                  ips == [] && d in m && (v4 ==> Usable(r.a, now4)) && (v6 ==> Usable(r.aaaa, now6)))
  {
    assert Given(v4, Base(m, d).a, now4) + [] == Given(v4, Base(m, d).a, now4);
  }

  // ---- what a sweep leaves ----

  /** Cleanup keeps exactly the records that have not expired, unchanged, and exactly the domains that have one. */
  lemma CleanedExactly(m: Cache, now: int, d: Domain)
    ensures d in Cleaned(m, now) <==>
              d in m && ((m[d].a.Some? && m[d].a.value.expire >= now)
                || (m[d].aaaa.Some? && m[d].aaaa.value.expire >= now))
    ensures d in Cleaned(m, now) ==>
              && Cleaned(m, now)[d].a == (if m[d].a.Some? && m[d].a.value.expire >= now then m[d].a else None)
              && Cleaned(m, now)[d].aaaa
                 == (if m[d].aaaa.Some? && m[d].aaaa.value.expire >= now then m[d].aaaa else None)
  {
  }

  // ---- which record is kept ----

  datatype Answered = Answered(d: Domain, f: Family, rec: IPRecord)

  function Updated(updates: seq<Answered>): Cache
    decreases |updates|
  {
    if updates == [] then map[]
    else
      var u := updates[|updates| - 1];
      Update(Updated(updates[..|updates| - 1]), u.d, u.f, u.rec)
  }

  function KeptFor(m: Cache, d: Domain, f: Family): Option<IPRecord> {
    match f
    case A => Base(m, d).a
    case AAAA => Base(m, d).aaaa
    case Other => None
  }

  /** The record of an update as it is kept: an AAAA record without its IPv4 addresses. */
  function AsKept(u: Answered): IPRecord {
    if u.f.AAAA? then u.rec.(ips := OnlyIPv6(u.rec.ips)) else u.rec
  }

  /** Update i is for this domain and family, and none of them expires later, nor as late and came before. */
  predicate Latest(updates: seq<Answered>, d: Domain, f: Family, i: nat) {
    && i < |updates| && updates[i].d == d && updates[i].f == f
    && forall j :: 0 <= j < |updates| && updates[j].d == d && updates[j].f == f ==>
         && updates[j].rec.expire <= updates[i].rec.expire
         && (updates[j].rec.expire == updates[i].rec.expire ==> i <= j)
  }

  /** Some update is for this domain and family. */
  predicate Asked(updates: seq<Answered>, d: Domain, f: Family) {
    exists i :: 0 <= i < |updates| && updates[i].d == d && updates[i].f == f
  }

  /** After any updates the record kept for a domain and family is the first of those that expire last. */
  lemma {:induction false} LatestIsKept(updates: seq<Answered>, d: Domain, f: Family)
    requires !f.Other?
    ensures KeptFor(Updated(updates), d, f).Some? <==> Asked(updates, d, f)
    ensures forall i: nat :: Latest(updates, d, f, i) ==> KeptFor(Updated(updates), d, f) == Some(AsKept(updates[i]))
    ensures Asked(updates, d, f) ==> exists i: nat :: Latest(updates, d, f, i)
    decreases |updates|
  {
    if updates != [] {
      hide KeptFor, Update, Latest, AsKept, Updated, Asked;
      var n := |updates| - 1;
      var init, u := updates[..n], updates[n];
      assert updates == init + [u];
      LatestIsKept(init, d, f);
      UpdatedNext(init, u);
      OneUpdate(Updated(init), u, d, f);
      var kept := KeptFor(Updated(init), d, f);
      LatestGrows(init, u, d, f, kept);
      AskedGrows(init, u, d, f);
      if u.d == d && u.f == f && (kept.None? || kept.value.expire < u.rec.expire) {
        assert Latest(updates, d, f, n);
      } else {
        LatestInside(init, d, f);
        if Asked(init, d, f) {
          var i: nat :| Latest(init, d, f, i);
          assert Latest(updates, d, f, i);
        }
      }
    }
  }

  lemma UpdatedNext(init: seq<Answered>, u: Answered)
    ensures Updated(init + [u]) == Update(Updated(init), u.d, u.f, u.rec)
  {
    assert (init + [u])[..|init|] == init;
  }

  lemma AskedGrows(init: seq<Answered>, u: Answered, d: Domain, f: Family)
    ensures Asked(init + [u], d, f) <==> Asked(init, d, f) || (u.d == d && u.f == f)
  {
    var updates := init + [u];
    assert updates[|init|] == u && forall i :: 0 <= i < |init| ==> updates[i] == init[i];
  }

  lemma LatestInside(updates: seq<Answered>, d: Domain, f: Family)
    ensures forall i: nat :: Latest(updates, d, f, i) ==> i < |updates|
  {
  }

  lemma OneUpdate(m: Cache, u: Answered, d: Domain, f: Family)
    requires !f.Other?
    ensures KeptFor(Update(m, u.d, u.f, u.rec), d, f)
         == if u.d == d && u.f == f && (KeptFor(m, d, f).None? || KeptFor(m, d, f).value.expire < u.rec.expire)
            then Some(AsKept(u)) else KeptFor(m, d, f)
  {
  }

  lemma LatestGrows(init: seq<Answered>, u: Answered, d: Domain, f: Family, kept: Option<IPRecord>)
    requires kept.Some? <==> Asked(init, d, f)
    requires kept.Some? ==> exists i: nat :: Latest(init, d, f, i)
    requires forall i: nat :: Latest(init, d, f, i) ==> kept == Some(AsKept(init[i]))
    ensures var updates := init + [u];
            var newer := u.d == d && u.f == f && (kept.None? || kept.value.expire < u.rec.expire);
            && (newer ==> Latest(updates, d, f, |init|) && forall i: nat :: Latest(updates, d, f, i) ==> i == |init|)
            && (!newer ==> forall i: nat :: Latest(updates, d, f, i) <==> Latest(init, d, f, i))
  {
    var updates := init + [u];
    assert forall i :: 0 <= i < |init| ==> updates[i] == init[i];
    if kept.Some? {
      var i: nat :| Latest(init, d, f, i);
      assert kept.value.expire == init[i].rec.expire;
    }
  }

  /** Exactly the 16-byte addresses are kept. */
  lemma {:induction false} OnlyIPv6Exactly(ips: seq<Address>)
    ensures forall x :: x in OnlyIPv6(ips) <==> x in ips && |x| == 16
    decreases |ips|
  {
    if ips != [] {
      OnlyIPv6Exactly(ips[..|ips| - 1]);
      assert ips == ips[..|ips| - 1] + [ips[|ips| - 1]];
    }
  }

  /** One address more is kept, at the end, exactly when it is an IPv6 one. */
  lemma OnlyIPv6Snoc(ips: seq<Address>, x: Address)
    ensures OnlyIPv6(ips + [x]) == OnlyIPv6(ips) + if |x| == 16 then [x] else []
  {
    assert (ips + [x])[..|ips|] == ips;
  }

  /** The IPv6 addresses are kept in order, each as often as it occurs. */
  lemma {:induction false} OnlyIPv6InOrder(a: seq<Address>, b: seq<Address>)
    ensures OnlyIPv6(a + b) == OnlyIPv6(a) + OnlyIPv6(b)
    decreases |b|
  {
    if b == [] {
      assert a + b == a && OnlyIPv6([]) == [];
    } else {
      hide OnlyIPv6;
      var init, x := b[..|b| - 1], b[|b| - 1];
      OnlyIPv6InOrder(a, init);
      OnlyIPv6Snoc(a + init, x);
      OnlyIPv6Snoc(init, x);
      assert b == init + [x] && a + b == (a + init) + [x];
    }
  }
}
