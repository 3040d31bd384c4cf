/** The socket and endpoint indexes of the connection manager (lfutil/src/net/connmgr.cpp). */
module ConnMgrs {
  import opened Words

  type Key = string

  type Number = n: int | -TWO64 < n < TWO64

  /** A connection as the manager sees it: its reference count and the number of its last activity. */
  datatype Conn = Conn(refs: nat, actSn: u64)

  datatype Status = SUCCESS | ERR_NOT_FOUND | ERR_AINSERTED

  const NUM_REMOVE_INACTIVE := 64

  /** Chosen from those seen: as many as the limit allows, and no younger than any other. */
  ghost predicate OldestIn(conns: map<s32, Conn>, chosen: set<s32>, seen: set<s32>, limit: nat) {
    chosen <= seen <= conns.Keys
    && |chosen| == (if |seen| < limit then |seen| else limit)
    && forall s, t :: s in chosen && t in seen - chosen ==> conns[s].actSn <= conns[t].actSn
  }

  /** The same, and each older than any other: there is no doubt which they are. */
  ghost predicate StrictlyOldestIn(conns: map<s32, Conn>, chosen: set<s32>, seen: set<s32>, limit: nat) {
    OldestIn(conns, chosen, seen, limit)
    && forall s, t :: s in chosen && t in seen - chosen ==> conns[s].actSn < conns[t].actSn
  }

  /** Connections nobody uses. */
  function IdleIn(conns: map<s32, Conn>): set<s32> { set s | s in conns && conns[s].refs == 0 }

  /** The idle connections strictly older than this one. */
  function OlderThan(conns: map<s32, Conn>, sock: s32): set<s32>
    requires sock in conns
  {
    set s | s in IdleIn(conns) && conns[s].actSn < conns[sock].actSn
  }

  /** Nobody shares the number of an idle connection that has fewer than limit older ones. */
  ghost predicate OldDiffer(conns: map<s32, Conn>, limit: nat) {
    forall s, t :: s in IdleIn(conns) && t in IdleIn(conns) && s != t && |OlderThan(conns, s)| < limit
      ==> conns[s].actSn != conns[t].actSn
  }

  ghost predicate Differ(conns: map<s32, Conn>, socks: set<s32>)
    requires socks <= conns.Keys
  {
    forall s, t :: s in socks && t in socks && s != t ==> conns[s].actSn != conns[t].actSn
  }

  /** The oldest idle connections, with a number each of their own. */
  ghost predicate Best(conns: map<s32, Conn>, best: set<s32>, limit: nat) {
    OldestIn(conns, best, IdleIn(conns), limit) && Differ(conns, best)
  }

  /** The same, and no other idle connection has one of these numbers. */
  ghost predicate StrictlyBest(conns: map<s32, Conn>, best: set<s32>, limit: nat) {
    StrictlyOldestIn(conns, best, IdleIn(conns), limit) && Differ(conns, best)
  }

  lemma {:induction false} Youngest(conns: map<s32, Conn>, socks: set<s32>) returns (first: s32)
    requires socks != {} && socks <= conns.Keys
    ensures first in socks && forall s :: s in socks ==> conns[first].actSn <= conns[s].actSn
    decreases |socks|
  {
    first :| first in socks;
    if socks != {first} {
      var other := Youngest(conns, socks - {first});
      if conns[other].actSn < conns[first].actSn {
        first := other;
      }
    }
  }

  /** There are such ones if the old numbers differ. */
  lemma {:induction false} StrictlyBestExists(conns: map<s32, Conn>, limit: nat) returns (best: set<s32>)
    requires OldDiffer(conns, limit)
    ensures StrictlyBest(conns, best, limit)
  {
    if limit == 0 {
      best := {};
    } else {
      best := StrictlyBestExists(conns, limit - 1);
      SubsetCount(best, IdleIn(conns));
      if best != IdleIn(conns) {
        var next := Youngest(conns, IdleIn(conns) - best);
        NextStrictlyBest(conns, best, limit - 1, next);
        best := best + {next};
      }
    }
  }

  lemma NextStrictlyBest(conns: map<s32, Conn>, best: set<s32>, limit: nat, next: s32)
    requires StrictlyBest(conns, best, limit) && OldDiffer(conns, limit + 1) && next in IdleIn(conns) - best
    requires forall s :: s in IdleIn(conns) - best ==> conns[next].actSn <= conns[s].actSn
    ensures StrictlyBest(conns, best + {next}, limit + 1)
  {
    SubsetCount(best + {next}, IdleIn(conns));
    SubsetCount(OlderThan(conns, next), best);
  }

  /** The last of the oldest may share its number with others: one of them will do. */
  lemma BestExists(conns: map<s32, Conn>, limit: nat) returns (best: set<s32>)
    requires limit > 0 && OldDiffer(conns, limit - 1)
    ensures Best(conns, best, limit)
  {
    best := StrictlyBestExists(conns, limit - 1);
    SubsetCount(best, IdleIn(conns));
    if best != IdleIn(conns) {
      var next := Youngest(conns, IdleIn(conns) - best);
      NextBest(conns, best, limit - 1, next);
      best := best + {next};
    }
  }

  lemma NextBest(conns: map<s32, Conn>, best: set<s32>, limit: nat, next: s32)
    requires StrictlyBest(conns, best, limit) && next in IdleIn(conns) - best
    requires forall s :: s in IdleIn(conns) - best ==> conns[next].actSn <= conns[s].actSn
    ensures Best(conns, best + {next}, limit + 1)
  {
    SubsetCount(best + {next}, IdleIn(conns));
  }

  lemma BestDiffers(conns: map<s32, Conn>, best: set<s32>, limit: nat)
    requires limit > 0 && Best(conns, best, limit)
    ensures OldDiffer(conns, limit - 1)
  {
    forall s, t | s in IdleIn(conns) && t in IdleIn(conns) && s != t && conns[s].actSn == conns[t].actSn
      ensures |OlderThan(conns, s)| >= limit - 1
    {
      if s in best && t in best {
        assert false;
      }
      SubsetCount(best, IdleIn(conns));
      if e :| e in best && conns[e].actSn == conns[s].actSn {
        assert best - {e} <= OlderThan(conns, s);
        SubsetCount(best - {e}, OlderThan(conns, s));
      } else {
        assert best <= OlderThan(conns, s);
        SubsetCount(best, OlderThan(conns, s));
      }
    }
  }

  /** One of the oldest has fewer than limit older ones. */
  lemma FewOlder(conns: map<s32, Conn>, best: set<s32>, limit: nat, s: s32)
    requires Best(conns, best, limit) && s in best
    ensures |OlderThan(conns, s)| < limit
  {
    SubsetCount(OlderThan(conns, s), best - {s});
  }

  /** The oldest are so without doubt exactly if the numbers up to the last differ too. */
  lemma StrictlyBestDiffers(conns: map<s32, Conn>, best: set<s32>, limit: nat)
    requires limit > 0 && Best(conns, best, limit)
    ensures StrictlyOldestIn(conns, best, IdleIn(conns), limit) <==> OldDiffer(conns, limit)
  {
    if OldDiffer(conns, limit) {
      forall s | s in best
        ensures |OlderThan(conns, s)| < limit
      {
        FewOlder(conns, best, limit, s);
      }
    } else {
      var s, t :| s in IdleIn(conns) && t in IdleIn(conns) && s != t && |OlderThan(conns, s)| < limit
                  && conns[s].actSn == conns[t].actSn;
      SubsetCount(best, IdleIn(conns));
      if s !in best && StrictlyOldestIn(conns, best, IdleIn(conns), limit) {
        SubsetCount(best, OlderThan(conns, s));
        assert false;
      }
    }
  }

  lemma SubsetCount(a: set<s32>, b: set<s32>)
    requires a <= b
    ensures |a| <= |b| && (|a| == |b| ==> a == b)
  {
    assert b == a + (b - a);
  }

  // ---------- the selection of removeInactive

  /** map::insert: an existing entry stays. */
  function InsertNew(m: map<u64, s32>, n: u64, v: s32): map<u64, s32> { if n in m then m else m[n := v] }

  ghost function Greatest(s: set<Number>): (m: Number)
    requires s != {}
    ensures m in s && forall x :: x in s ==> x <= m
  {
    HasGreatest(s);
    var m :| m in s && forall x :: x in s ==> x <= m;
    m
  }

  lemma HasGreatest(s: set<Number>)
    requires s != {}
    ensures exists m :: m in s && forall x :: x in s ==> x <= m
  {
    var m := GreatestOf(s);
  }

  lemma {:induction false} GreatestOf(s: set<Number>) returns (m: Number)
    requires s != {}
    ensures m in s && forall x :: x in s ==> x <= m
    decreases |s|
  {
    m :| m in s;
    if s != {m} {
      var n := GreatestOf(s - {m});
      assert forall x :: x in s ==> x == m || x in s - {m};
      if m < n {
        m := n;
      }
    }
  }

  /** One connection: collected while there is room, else exchanged for the youngest if it is older. */
  ghost function Next(m: map<u64, s32>, conn: Conn, sock: s32, limit: nat): map<u64, s32>
    requires limit > 0
  {
    if conn.refs != 0 then m
    else if |m| < limit then InsertNew(m, conn.actSn, sock)
    else
      var last := Greatest(m.Keys);
      if conn.actSn < last then InsertNew(m - {last}, conn.actSn, sock) else m
  }

  /** What is collected from these sockets, visited in ascending order. */
  ghost function Selection(conns: map<s32, Conn>, socks: set<s32>, limit: nat): map<u64, s32>
    requires limit > 0 && socks <= conns.Keys
    decreases |socks|
  {
    if socks == {} then map[]
    else
      var sock := Greatest(socks);
      Next(Selection(conns, socks - {sock}, limit), conns[sock], sock, limit)
  }

  lemma SelectionStep(conns: map<s32, Conn>, socks: set<s32>, sock: s32, limit: nat)
    requires limit > 0 && socks + {sock} <= conns.Keys && forall s :: s in socks ==> s < sock
    ensures Selection(conns, socks + {sock}, limit) == Next(Selection(conns, socks, limit), conns[sock], sock, limit)
  {
    var all := socks + {sock};
    assert sock in all;
    assert Greatest(all) == sock && all - {sock} == socks;
  }

  /** Each number collected stands for one idle connection, among those seen, that has it. */
  ghost predicate Indexes(conns: map<s32, Conn>, m: map<u64, s32>, seen: set<s32>) {
    forall n :: n in m ==> m[n] in seen && m[n] in IdleIn(conns) && conns[m[n]].actSn == n
  }

  lemma InsertIndexes(conns: map<s32, Conn>, m: map<u64, s32>, seen: set<s32>, sock: s32)
    requires sock in IdleIn(conns) && Indexes(conns, m, seen)
    ensures var next := InsertNew(m, conns[sock].actSn, sock);
      Indexes(conns, next, seen + {sock}) && |m| <= |next| <= |m| + 1
  {
    var n := conns[sock].actSn;
    assert n !in m ==> m[n := sock].Keys == m.Keys + {n};
  }

  lemma NextIndexes(conns: map<s32, Conn>, m: map<u64, s32>, seen: set<s32>, sock: s32, limit: nat)
    requires limit > 0 && sock in conns && Indexes(conns, m, seen) && |m| <= limit
    ensures var next := Next(m, conns[sock], sock, limit); Indexes(conns, next, seen + {sock}) && |next| <= limit
  {
    if conns[sock].refs == 0 {
      hide Indexes, InsertNew;
      if |m| < limit {
        InsertIndexes(conns, m, seen, sock);
      } else {
        var last := Greatest(m.Keys);
        ValuesWithout(conns, m, seen, last);
        InsertIndexes(conns, m - {last}, seen, sock);
      }
    }
    SeenGrows(conns, m, seen, sock);
  }

  lemma SeenGrows(conns: map<s32, Conn>, m: map<u64, s32>, seen: set<s32>, sock: s32)
    requires Indexes(conns, m, seen)
    ensures Indexes(conns, m, seen + {sock})
  {
  }

  lemma NextInUse(m: map<u64, s32>, conn: Conn, sock: s32, limit: nat)
    requires limit > 0 && conn.refs != 0
    ensures Next(m, conn, sock, limit) == m
  {
  }

  lemma NextWithRoom(m: map<u64, s32>, conn: Conn, sock: s32, limit: nat)
    requires |m| < limit && conn.refs == 0
    ensures Next(m, conn, sock, limit) == InsertNew(m, conn.actSn, sock)
  {
  }

  lemma NextWhenFull(m: map<u64, s32>, conn: Conn, sock: s32, limit: nat, last: u64)
    requires |m| >= limit > 0 && conn.refs == 0 && last in m && forall k :: k in m ==> k <= last
    ensures Next(m, conn, sock, limit)
         == if conn.actSn < last then InsertNew(m - {last}, conn.actSn, sock) else m
  {
    assert last in m.Keys;
    assert Greatest(m.Keys) == last;
  }

  lemma {:induction false} SelectionIndexes(conns: map<s32, Conn>, socks: set<s32>, limit: nat)
    requires limit > 0 && socks <= conns.Keys
    ensures Indexes(conns, Selection(conns, socks, limit), socks) && |Selection(conns, socks, limit)| <= limit
    decreases |socks|
  {
    if socks != {} {
      var sock := Greatest(socks);
      SelectionIndexes(conns, socks - {sock}, limit);
      NextIndexes(conns, Selection(conns, socks - {sock}, limit), socks - {sock}, sock, limit);
      assert socks - {sock} + {sock} == socks;
    }
  }

  lemma {:induction false} CountValues(conns: map<s32, Conn>, m: map<u64, s32>, seen: set<s32>)
    requires Indexes(conns, m, seen)
    ensures |m.Values| == |m|
    decreases |m|
  {
    if m != map[] {
      var n :| n in m;
      ValuesWithout(conns, m, seen, n);
      CountValues(conns, m - {n}, seen);
      assert m[n] in m.Values;
    } else {
      assert m.Values == {};
    }
  }

  lemma ValuesWithout(conns: map<s32, Conn>, m: map<u64, s32>, seen: set<s32>, n: u64)
    requires Indexes(conns, m, seen) && n in m
    ensures (m - {n}).Values == m.Values - {m[n]} && Indexes(conns, m - {n}, seen) && |m - {n}| == |m| - 1
  {
    var m' := m - {n};
    assert m'.Keys == m.Keys - {n};
    forall v | v in m.Values && v != m[n]
      ensures v in m'.Values
    {
      var k :| k in m && m[k] == v;
      assert k in m'.Keys;
    }
    forall v | v in m'.Values
      ensures v in m.Values && v != m[n]
    {
      var k :| k in m' && m'[k] == v;
      assert k in m && m[k] == v;
    }
  }

  function Numbers(conns: map<s32, Conn>, socks: set<s32>): set<u64>
    requires socks <= conns.Keys
  {
    set s | s in socks :: conns[s].actSn
  }

  lemma {:induction false} CountNumbers(conns: map<s32, Conn>, socks: set<s32>)
    requires socks <= conns.Keys && Differ(conns, socks)
    ensures |Numbers(conns, socks)| == |socks|
    decreases |socks|
  {
    if socks != {} {
      var s :| s in socks;
      CountNumbers(conns, socks - {s});
      assert Numbers(conns, socks) == Numbers(conns, socks - {s}) + {conns[s].actSn};
    }
  }

  /** The numbers of the oldest that have been seen are collected. */
  ghost predicate Collected(conns: map<s32, Conn>, m: map<u64, s32>, seen: set<s32>, best: set<s32>) {
    best <= conns.Keys
    && forall s :: s in seen && s in IdleIn(conns) && conns[s].actSn in Numbers(conns, best) ==> conns[s].actSn in m
  }

  /** With all places taken, and one of the oldest not collected, the youngest collected is younger than all of those. */
  lemma SomeoneIsYounger(conns: map<s32, Conn>, m: map<u64, s32>, seen: set<s32>, limit: nat, best: set<s32>, n: u64)
    requires limit > 0 && Best(conns, best, limit) && Indexes(conns, m, seen) && |m| == limit
    requires n in Numbers(conns, best) && n !in m
    ensures Greatest(m.Keys) !in Numbers(conns, best) && n < Greatest(m.Keys)
  {
    CountNumbers(conns, best);
    if m.Keys <= Numbers(conns, best) {
      SubsetOfNumbers(m.Keys + {n}, Numbers(conns, best));
      assert false;
    }
    var k :| k in m && k !in Numbers(conns, best);
    BestAreSmaller(conns, best, limit, m[k]);
  }

  lemma SubsetOfNumbers(a: set<u64>, b: set<u64>)
    requires a <= b
    ensures |a| <= |b| && (|a| == |b| ==> a == b)
  {
    assert b == a + (b - a);
  }

  /** An idle connection whose number is none of those of the oldest is younger than all of them. */
  lemma BestAreSmaller(conns: map<s32, Conn>, best: set<s32>, limit: nat, t: s32)
    requires Best(conns, best, limit) && t in IdleIn(conns)
    ensures t !in best ==> forall n :: n in Numbers(conns, best) ==> n <= conns[t].actSn
    ensures conns[t].actSn !in Numbers(conns, best) ==> forall n :: n in Numbers(conns, best) ==> n < conns[t].actSn
  {
  }

  /** Of two idle connections with one number one at least is not among the oldest, so none of those is younger. */
  lemma SharedIsLast(conns: map<s32, Conn>, best: set<s32>, limit: nat, s: s32, t: s32)
    requires Best(conns, best, limit) && s in IdleIn(conns) && t in IdleIn(conns) && s != t
    requires conns[s].actSn == conns[t].actSn
    ensures forall n :: n in Numbers(conns, best) ==> n <= conns[s].actSn
  {
    BestAreSmaller(conns, best, limit, if s in best then t else s);
  }

  /** No number of the oldest is ever dropped, and each is taken in when it is seen. */
  lemma NextKeepsBest(conns: map<s32, Conn>, m: map<u64, s32>, seen: set<s32>, sock: s32, limit: nat, best: set<s32>)
    requires limit > 0 && Best(conns, best, limit) && Indexes(conns, m, seen) && |m| <= limit
    requires sock in conns && sock !in seen && Collected(conns, m, seen, best)
    ensures Collected(conns, Next(m, conns[sock], sock, limit), seen + {sock}, best)
  {
    hide Best, Numbers;
    var n := conns[sock].actSn;
    if sock in IdleIn(conns) && |m| == limit && n < Greatest(m.Keys) {
      YoungestIsDropped(conns, m, seen, sock, limit, best);
    } else if sock in IdleIn(conns) && |m| == limit && n !in m && n in Numbers(conns, best) {
      SomeoneIsYounger(conns, m, seen, limit, best, n);
    }
  }

  /** The youngest collected makes room only if its number is none of those of the oldest. */
  lemma YoungestIsDropped(conns: map<s32, Conn>, m: map<u64, s32>, seen: set<s32>, sock: s32, limit: nat, best: set<s32>)
    requires limit > 0 && Best(conns, best, limit) && Indexes(conns, m, seen) && |m| == limit
    requires sock in IdleIn(conns) && sock !in seen && conns[sock].actSn < Greatest(m.Keys)
    ensures Greatest(m.Keys) !in Numbers(conns, best)
  {
    assert best <= conns.Keys;
    hide Best, Numbers;
    var n := conns[sock].actSn;
    if n !in Numbers(conns, best) {
      BestAreSmaller(conns, best, limit, sock);
    } else if n in m {
      SharedIsLast(conns, best, limit, sock, m[n]);
    } else {
      SomeoneIsYounger(conns, m, seen, limit, best, n);
    }
  }

  lemma {:induction false} SelectionKeepsBest(conns: map<s32, Conn>, socks: set<s32>, limit: nat, best: set<s32>)
    requires limit > 0 && socks <= conns.Keys && Best(conns, best, limit)
    ensures Collected(conns, Selection(conns, socks, limit), socks, best)
    decreases |socks|
  {
    hide Best, Indexes, Collected;
    if socks != {} {
      var sock := Greatest(socks);
      SelectionKeepsBest(conns, socks - {sock}, limit, best);
      SelectionIndexes(conns, socks - {sock}, limit);
      NextKeepsBest(conns, Selection(conns, socks - {sock}, limit), socks - {sock}, sock, limit, best);
      assert socks - {sock} + {sock} == socks;
    } else {
      NothingCollected(conns, best, limit);
    }
  }

  lemma NothingCollected(conns: map<s32, Conn>, best: set<s32>, limit: nat)
    requires Best(conns, best, limit)
    ensures Collected(conns, map[], {}, best)
  {
  }

  /** What has collected the numbers of the oldest has collected one connection for each, and nothing else. */
  lemma CollectedIsBest(conns: map<s32, Conn>, m: map<u64, s32>, limit: nat, best: set<s32>)
    requires limit > 0 && Best(conns, best, limit) && Indexes(conns, m, conns.Keys) && |m| <= limit
    requires Collected(conns, m, conns.Keys, best)
    ensures OldestIn(conns, m.Values, IdleIn(conns), limit)
  {
    CountNumbers(conns, best);
    CountValues(conns, m, conns.Keys);
    IndexesDiffer(conns, m, conns.Keys);
    SubsetCount(m.Values, IdleIn(conns));
    SubsetOfNumbers(Numbers(conns, best), m.Keys);
    forall s, t | s in m.Values && t in IdleIn(conns) - m.Values
      ensures conns[s].actSn <= conns[t].actSn
    {
      var n :| n in m && m[n] == s;
      if conns[t].actSn in m {
        SharedIsLast(conns, best, limit, t, m[conns[t].actSn]);
      } else {
        BestAreSmaller(conns, best, limit, t);
      }
    }
  }

  /**
   * The oldest idle connections are selected if and only if their numbers differ, but for the last of them, which may
   * share its number with others. They are so without doubt if and only if the last has a number of its own, too.
   */
  lemma OldestSelected(conns: map<s32, Conn>, limit: nat)
    requires limit > 0
    ensures var chosen := Selection(conns, conns.Keys, limit).Values;
      (OldestIn(conns, chosen, IdleIn(conns), limit) <==> OldDiffer(conns, limit - 1))
      && (StrictlyOldestIn(conns, chosen, IdleIn(conns), limit) <==> OldDiffer(conns, limit))
      && (|IdleIn(conns)| <= limit ==> (chosen == IdleIn(conns) <==> Differ(conns, IdleIn(conns))))
  {
    var m := Selection(conns, conns.Keys, limit);
    SelectionIndexes(conns, conns.Keys, limit);
    IndexesDiffer(conns, m, conns.Keys);
    SubsetCount(m.Values, IdleIn(conns));
    assert Differ(conns, IdleIn(conns)) ==> OldDiffer(conns, limit);
    if OldDiffer(conns, limit - 1) {
      var best := BestExists(conns, limit);
      SelectionKeepsBest(conns, conns.Keys, limit, best);
      CollectedIsBest(conns, m, limit, best);
    }
    if OldestIn(conns, m.Values, IdleIn(conns), limit) {
      BestDiffers(conns, m.Values, limit);
      StrictlyBestDiffers(conns, m.Values, limit);
    }
  }

  lemma InPlainWords(conns: map<s32, Conn>, gone: seq<s32>, limit: nat)
    requires Members(gone) <= IdleIn(conns) && |Members(gone)| == |gone|
    ensures forall s :: s in Members(gone) ==> s in conns && conns[s].refs == 0
    ensures OldestIn(conns, Members(gone), IdleIn(conns), limit) ==>
              forall s, t :: s in Members(gone) && t in conns && t !in Members(gone) && conns[t].refs == 0
                ==> conns[s].actSn <= conns[t].actSn
    ensures OldestIn(conns, Members(gone), IdleIn(conns), limit) ==>
              |gone| == limit || forall s :: s in conns && conns[s].refs == 0 ==> s in gone
  {
    hide Members;
    SubsetCount(Members(gone), IdleIn(conns));
    forall s | s in Members(gone)
      ensures s in gone
    {
      InMembers(gone, s);
    }
  }

  lemma InMembers(s: seq<s32>, x: s32)
    requires x in Members(s)
    ensures x in s
  {
  }

  lemma IndexesDiffer(conns: map<s32, Conn>, m: map<u64, s32>, seen: set<s32>)
    requires Indexes(conns, m, seen)
    ensures m.Values <= IdleIn(conns) && Differ(conns, m.Values)
  {
  }

  function Members(s: seq<s32>): set<s32> { set x | x in s }

  function Members64(s: seq<u64>): set<u64> { set x | x in s }

  predicate Increasing(s: seq<u64>) { forall i, j :: 0 <= i < j < |s| ==> s[i] < s[j] }

  predicate InAgeOrder(conns: map<s32, Conn>, socks: seq<s32>) {
    (forall i :: 0 <= i < |socks| ==> socks[i] in conns)
    && forall i, j :: 0 <= i < j < |socks| ==> conns[socks[i]].actSn < conns[socks[j]].actSn
  }

  function Sockets(m: map<u64, s32>, order: seq<u64>): (r: seq<s32>)
    requires Members64(order) == m.Keys
    ensures |r| == |order| && forall i :: 0 <= i < |order| ==> order[i] in m && r[i] == m[order[i]]
  {
    assert forall i :: 0 <= i < |order| ==> order[i] in Members64(order);
    seq(|order|, i requires 0 <= i < |order| => m[order[i]])
  }

  lemma NoMembers()
    ensures Members([]) == {}
  {
  }

  lemma NextMember(s: seq<s32>, i: nat)
    requires i < |s| && forall j, k :: 0 <= j < k < |s| ==> s[j] != s[k]
    ensures s[i] !in Members(s[..i]) && Members(s[..i + 1]) == Members(s[..i]) + {s[i]} && s[..i + 1] == s[..i] + [s[i]]
  {
    assert s[..i + 1] == s[..i] + [s[i]];
  }

  lemma {:induction false} CountIncreasing(s: seq<u64>)
    requires Increasing(s)
    ensures |Members64(s)| == |s|
  {
    if s != [] {
      var init, last := s[..|s| - 1], s[|s| - 1];
      CountIncreasing(init);
      assert s == init + [last];
      assert Members64(s) == Members64(init) + {last};
      assert last !in Members64(init);
    }
  }

  /** The keys of a map in the order in which it is walked through. */
  method SortedKeys(keys: set<u64>) returns (order: seq<u64>)
    ensures Members64(order) == keys && Increasing(order)
  {
    hide Increasing, Members64;
    order := [];
    var todo := keys;
    NoKeys();
    while todo != {}
      invariant todo <= keys && Members64(order) == keys - todo && Increasing(order)
      invariant forall k, x :: k in Members64(order) && x in todo ==> k < x
      decreases |todo|
    {
      var n: u64 := Smallest(todo);
      AppendKey(order, n);
      order := order + [n];
      todo := todo - {n};
    }
  }

  lemma NoKeys()
    ensures Members64([]) == {} && Increasing([])
  {
  }

  lemma AppendKey(order: seq<u64>, n: u64)
    requires Increasing(order) && forall k :: k in Members64(order) ==> k < n
    ensures Increasing(order + [n]) && Members64(order + [n]) == Members64(order) + {n}
  {
    assert forall i :: 0 <= i < |order| ==> order[i] in Members64(order);
  }

  /** A socket is in the set of its own endpoint and in no other, and no set is empty. */
  ghost predicate Inverse(eps: map<Key, set<s32>>, home: map<s32, Key>) {
    (forall k :: k in eps ==> eps[k] != {})
    && (forall k, s :: k in eps && s in eps[k] ==> s in home && home[s] == k)
    && (forall s :: s in home ==> home[s] in eps && s in eps[home[s]])
  }

  lemma InsertKeeps(eps: map<Key, set<s32>>, home: map<s32, Key>, key: Key, sock: s32)
    requires Inverse(eps, home) && sock !in home
    ensures var all := if key in eps then eps else eps[key := {}];
      Inverse(all[key := all[key] + {sock}], home[sock := key])
  {
  }

  /** The one set that holds the socket gives it up, or goes when nothing else is in it. */
  ghost predicate Without(eps: map<Key, set<s32>>, was: map<Key, set<s32>>, sock: s32) {
    (forall k :: k in eps <==> k in was && was[k] != {sock})
    && (forall k :: k in eps ==> eps[k] == was[k] - {sock})
  }

  lemma EraseKeeps(eps: map<Key, set<s32>>, was: map<Key, set<s32>>, home: map<s32, Key>, sock: s32)
    requires Inverse(was, home) && Without(eps, was, sock)
    ensures Inverse(eps, home - {sock})
  {
  }

  lemma OneErased(eps: map<Key, set<s32>>, home: map<s32, Key>, key: Key, sock: s32)
    requires Inverse(eps, home) && key in eps && sock in eps[key]
    ensures var left := eps[key] - {sock};
      Without(if left == {} then eps - {key} else eps[key := left], eps, sock)
  {
    assert home[sock] == key;
    assert forall k :: k in eps && k != key ==> sock !in eps[k] && eps[k] - {sock} == eps[k];
  }

  lemma NoneErased(eps: map<Key, set<s32>>, sock: s32)
    requires forall k :: k in eps ==> sock !in eps[k]
    ensures Without(eps, eps, sock)
  {
    assert forall k :: k in eps ==> eps[k] - {sock} == eps[k];
  }

  class ConnMgr {
    var sockConnMap: map<s32, Conn>
    var epSockMap: map<Key, set<s32>>
    /** Sockets whose connections have been told to clean up, in order. */
    var cleaned: seq<s32>

    /** The endpoint each socket was inserted under. */
    ghost var home: map<s32, Key>

    /** The two maps are inverse. */
    ghost predicate Valid()
      reads this
    {
      home.Keys == sockConnMap.Keys && Inverse(epSockMap, home)
    }

    constructor ()
      ensures Valid() && sockConnMap == map[] && epSockMap == map[] && cleaned == [] && home == map[]
    {
      sockConnMap, epSockMap, cleaned, home := map[], map[], [], map[];
    }

    /** find by socket: the connection found is acquired. */
    method Find(sock: s32) returns (conn: Option<Conn>)
      requires Valid()
      modifies `sockConnMap
      ensures Valid()
      ensures conn.Some? <==> sock in old(sockConnMap)
      ensures conn.Some? ==> conn.value == old(sockConnMap[sock]).(refs := old(sockConnMap[sock].refs) + 1)
                             && sockConnMap == old(sockConnMap)[sock := conn.value]
      ensures conn.None? ==> sockConnMap == old(sockConnMap)
    {
      conn := None;
      if sock in sockConnMap {
        conn := Some(sockConnMap[sock].(refs := sockConnMap[sock].refs + 1));
        sockConnMap := sockConnMap[sock := conn.value];
        assert sockConnMap.Keys == old(sockConnMap.Keys);
      }
    }

    /** find by endpoint: the smallest of its sockets. */
    method FindEndPoint(key: Key) returns (sock: Option<s32>, conn: Option<Conn>)
      requires Valid()
      modifies `sockConnMap
      ensures Valid() && (sock.Some? <==> key in epSockMap) && (conn.Some? <==> sock.Some?)
      ensures sock.Some? ==> sock.value in home && home[sock.value] == key
                             && forall s :: s in home && home[s] == key ==> sock.value <= s
      ensures sock.Some? ==> conn.value == sockConnMap[sock.value]
                             && sockConnMap == old(sockConnMap)[sock.value := conn.value]
                             && conn.value.refs == old(sockConnMap)[sock.value].refs + 1
      ensures sock.None? ==> sockConnMap == old(sockConnMap) && forall s :: s in home ==> home[s] != key
    {
      if key !in epSockMap {
        return None, None;
      }
      var first := Smallest(epSockMap[key]);
      sock := Some(first);
      conn := Find(first);
    }

    method Insert(key: Key, sock: s32, conn: Conn) returns (rc: Status)
      requires Valid()
      modifies `sockConnMap, `epSockMap, `home
      ensures Valid()
      ensures rc == if sock in old(sockConnMap) then ERR_AINSERTED else SUCCESS
      ensures rc == ERR_AINSERTED ==> sockConnMap == old(sockConnMap) && epSockMap == old(epSockMap) && home == old(home)
      ensures rc == SUCCESS ==> sockConnMap == old(sockConnMap)[sock := conn] && home == old(home)[sock := key]
    {
      if sock in sockConnMap {
        return ERR_AINSERTED;
      }
      InsertKeeps(epSockMap, home, key, sock);
      hide Inverse;
      sockConnMap := sockConnMap[sock := conn];
      if key !in epSockMap {
        epSockMap := epSockMap[key := {}];
      }
      epSockMap := epSockMap[key := epSockMap[key] + {sock}];
      home := home[sock := key];
      return SUCCESS;
    }

    /** remove: the endpoint whose set holds the socket is searched for; an emptied set goes with it. */
    method Remove(sock: s32) returns (rc: Status)
      requires Valid()
      modifies this
      ensures Valid()
      ensures rc == if sock in old(sockConnMap) then SUCCESS else ERR_NOT_FOUND
      ensures sockConnMap == old(sockConnMap) - {sock} && home == old(home) - {sock}
      ensures cleaned == old(cleaned) + (if rc == SUCCESS then [sock] else [])
    {
      hide Inverse, Without;
      EraseFromEndPoints(sock);
      EraseKeeps(epSockMap, old(epSockMap), home, sock);
      if sock in sockConnMap {
        cleaned := cleaned + [sock];
        sockConnMap := sockConnMap - {sock};
        rc := SUCCESS;
      } else {
        rc := ERR_NOT_FOUND;
      }
      home := home - {sock};
    }

    method EraseFromEndPoints(sock: s32)
      requires Valid()
      modifies `epSockMap
      ensures Without(epSockMap, old(epSockMap), sock)
    {
      hide Inverse, Without;
      var keys := epSockMap.Keys;
      while keys != {}
        invariant keys <= epSockMap.Keys && epSockMap == old(epSockMap)
        invariant forall k :: k in epSockMap && sock in epSockMap[k] ==> k in keys
        decreases |keys|
      {
        var si :| si in keys;
        if sock in epSockMap[si] {
          OneErased(epSockMap, home, si, sock);
          var left := epSockMap[si] - {sock};
          epSockMap := if left == {} then epSockMap - {si} else epSockMap[si := left];
          return;
        }
        keys := keys - {si};
      }
      NoneErased(epSockMap, sock);
    }

    // ---------- removing inactive connections

    /** The selection loop of removeInactive, over the sockets in ascending order. */
    method SelectInactive(limit: nat) returns (sortedMap: map<u64, s32>)
      requires limit > 0
      ensures sortedMap == Selection(sockConnMap, sockConnMap.Keys, limit)
    {
      hide Next;
      sortedMap := map[];
      var todo := sockConnMap.Keys;
      ghost var seen: set<s32> := {};
      while todo != {}
        invariant todo <= sockConnMap.Keys && seen == sockConnMap.Keys - todo
        invariant forall s, t :: s in seen && t in todo ==> s < t
        invariant sortedMap == Selection(sockConnMap, seen, limit)
        decreases |todo|
      {
        var sock: s32 := Smallest(todo);
        SelectionStep(sockConnMap, seen, sock, limit);
        sortedMap := Consider(sortedMap, sock, limit);
        todo := todo - {sock};
        seen := seen + {sock};
      }
      assert seen == sockConnMap.Keys;
    }

    /**
     * removeInactive: at most as many idle connections go as the limit allows, the oldest of those chosen first; they
     * are the oldest of all if and only if the old numbers differ. A connection in use always stays.
     */
    method RemoveInactive(limit: nat := NUM_REMOVE_INACTIVE) returns (removed: nat, ghost gone: seq<s32>)
      requires Valid() && limit > 0
      modifies this
      ensures Valid() && removed == |gone| <= limit && cleaned == old(cleaned) + gone
      ensures sockConnMap == old(sockConnMap) - Members(gone) && home == old(home) - Members(gone)
      ensures Members(gone) <= IdleIn(old(sockConnMap)) && InAgeOrder(old(sockConnMap), gone)
      ensures Members(gone) == Selection(old(sockConnMap), old(sockConnMap.Keys), limit).Values
      ensures OldestIn(old(sockConnMap), Members(gone), IdleIn(old(sockConnMap)), limit)
         <==> OldDiffer(old(sockConnMap), limit - 1)
      ensures StrictlyOldestIn(old(sockConnMap), Members(gone), IdleIn(old(sockConnMap)), limit)
         <==> OldDiffer(old(sockConnMap), limit)
      ensures forall s :: s in Members(gone) ==> s in old(sockConnMap) && old(sockConnMap[s].refs == 0)
      ensures OldDiffer(old(sockConnMap), limit - 1) ==>
                forall s, t :: s in Members(gone) && t in old(sockConnMap) && t !in Members(gone)
                               && old(sockConnMap[t].refs == 0)
                           ==> old(sockConnMap[s].actSn <= sockConnMap[t].actSn)
      ensures OldDiffer(old(sockConnMap), limit - 1) ==>
                |gone| == limit || forall s :: s in old(sockConnMap) && old(sockConnMap[s].refs == 0) ==> s in gone
      ensures forall i, j :: 0 <= i < j < |gone| ==> old(sockConnMap)[gone[i]].actSn < old(sockConnMap)[gone[j]].actSn
      ensures var idle := IdleIn(old(sockConnMap));
        |idle| <= limit ==> (Members(gone) == idle <==> Differ(old(sockConnMap), idle))
    {
      hide Valid, OldestIn, StrictlyOldestIn, OldDiffer, Differ, InAgeOrder, Members, Indexes, Selection, IdleIn;
      var sortedMap := SelectInactive(limit);
      SelectionIndexes(sockConnMap, sockConnMap.Keys, limit);
      IndexesDiffer(sockConnMap, sortedMap, sockConnMap.Keys);
      OldestSelected(sockConnMap, limit);
      var order := SortedKeys(sortedMap.Keys);
      var socks := Sockets(sortedMap, order);
      Listed(sockConnMap, sortedMap, order);
      CountValues(sockConnMap, sortedMap, sockConnMap.Keys);
      InPlainWords(sockConnMap, socks, limit);
      removed := RemoveEach(socks);
      gone := socks;
    }

    /** The removal loop. */
    method RemoveEach(gone: seq<s32>) returns (removed: nat)
      requires Valid() && (forall i :: 0 <= i < |gone| ==> gone[i] in sockConnMap)
      requires forall i, j :: 0 <= i < j < |gone| ==> gone[i] != gone[j]
      modifies this
      ensures Valid() && removed == |gone| && cleaned == old(cleaned) + gone
      ensures sockConnMap == old(sockConnMap) - Members(gone) && home == old(home) - Members(gone)
    {
      hide Valid, Members;
      removed := 0;
      assert gone[..0] == [];
      NoMembers();
      for i := 0 to |gone|
        invariant Valid() && removed == i && cleaned == old(cleaned) + gone[..i]
        invariant sockConnMap == old(sockConnMap) - Members(gone[..i]) && home == old(home) - Members(gone[..i])
      {
        NextMember(gone, i);
        var rc := Remove(gone[i]);
        if rc == SUCCESS {
          removed := removed + 1;
        }
      }
      assert gone[..|gone|] == gone;
    }

    /** One connection of the selection loop. */
    method Consider(sortedMap: map<u64, s32>, sock: s32, limit: nat) returns (next: map<u64, s32>)
      requires limit > 0 && sock in sockConnMap
      ensures next == Next(sortedMap, sockConnMap[sock], sock, limit)
    {
      hide Next;
      next := sortedMap;
      var conn := sockConnMap[sock];
      if conn.refs == 0 {
        if |sortedMap| < limit {
          NextWithRoom(sortedMap, conn, sock, limit);
          next := InsertNew(next, conn.actSn, sock);
        } else {
          var last := Largest(sortedMap.Keys);
          NextWhenFull(sortedMap, conn, sock, limit, last);
          if conn.actSn < last {
            next := InsertNew(next - {last}, conn.actSn, sock);
          }
        }
      } else {
        NextInUse(sortedMap, conn, sock, limit);
      }
    }
  }

  lemma Listed(conns: map<s32, Conn>, m: map<u64, s32>, order: seq<u64>)
    requires Indexes(conns, m, conns.Keys) && Members64(order) == m.Keys && Increasing(order)
    ensures |order| == |m| && Members(Sockets(m, order)) == m.Values && InAgeOrder(conns, Sockets(m, order))
    ensures forall i, j :: 0 <= i < j < |order| ==> Sockets(m, order)[i] != Sockets(m, order)[j]
    ensures forall i :: 0 <= i < |order| ==> Sockets(m, order)[i] in conns
  {
    var socks := Sockets(m, order);
    forall v | v in m.Values
      ensures v in socks
    {
      var n :| n in m && m[n] == v;
      assert n in Members64(order);
      var i :| 0 <= i < |order| && order[i] == n;
      assert socks[i] == v;
    }
    assert forall i :: 0 <= i < |order| ==> order[i] in Members64(order);
    CountIncreasing(order);
  }

  /**
   * Four idle connections with the numbers 1, 5, 1 and 7, of which two should go. The third drops 5 and puts nothing in
   * its place, and 7 is collected: the youngest goes, and 5 stays, whose number nobody shares.
   */
  method SharedNumberSparesOlder() returns (m: ConnMgr)
    ensures fresh(m) && m.sockConnMap == map[2 := Conn(0, 5), 3 := Conn(0, 1)] && 4 in m.cleaned
  {
    hide Selection, OldestIn, StrictlyOldestIn, OldDiffer, Differ, InAgeOrder, IdleIn;
    m := FourIdle();
    SharedSelection(m.sockConnMap);
    var removed, gone := m.RemoveInactive(2);
    assert 4 in Members(gone);
  }

  method FourIdle() returns (m: ConnMgr)
    ensures fresh(m) && m.Valid()
    ensures m.sockConnMap == map[1 := Conn(0, 1), 2 := Conn(0, 5), 3 := Conn(0, 1), 4 := Conn(0, 7)]
    ensures m.cleaned == []
  {
    hide ConnMgr.Valid;
    m := new ConnMgr();
    var rc := m.Insert("a", 1, Conn(0, 1));
    rc := m.Insert("a", 2, Conn(0, 5));
    rc := m.Insert("a", 3, Conn(0, 1));
    rc := m.Insert("a", 4, Conn(0, 7));
  }

  lemma SharedSelection(conns: map<s32, Conn>)
    requires conns == map[1 := Conn(0, 1), 2 := Conn(0, 5), 3 := Conn(0, 1), 4 := Conn(0, 7)]
    ensures Selection(conns, conns.Keys, 2).Values == {1, 4}
  {
    hide Selection, Next;
    FirstTwo(conns);
    LastTwo(conns);
    assert {1, 2, 3} + {4} == conns.Keys;
    var m: map<u64, s32> := map[1 := 1, 7 := 4];
    assert m[1] in m.Values && m[7] in m.Values;
  }

  lemma FirstTwo(conns: map<s32, Conn>)
    requires {1, 2} <= conns.Keys && conns[1] == Conn(0, 1) && conns[2] == Conn(0, 5)
    ensures Selection(conns, {1, 2}, 2) == map[1 := 1, 5 := 2]
  {
    assert Selection(conns, {}, 2) == map[];
    hide Selection, Next;
    SelectionStep(conns, {}, 1, 2);
    assert {} + {1} == {1} && {1} + {2} == {1, 2};
    NextWithRoom(map[], conns[1], 1, 2);
    SelectionStep(conns, {1}, 2, 2);
    NextWithRoom(map[1 := 1], conns[2], 2, 2);
  }

  lemma LastTwo(conns: map<s32, Conn>)
    requires {1, 2, 3, 4} <= conns.Keys && conns[3] == Conn(0, 1) && conns[4] == Conn(0, 7)
    requires Selection(conns, {1, 2}, 2) == map[1 := 1, 5 := 2]
    ensures Selection(conns, {1, 2, 3} + {4}, 2) == map[1 := 1, 7 := 4]
  {
    hide Selection, Next;
    SelectionStep(conns, {1, 2}, 3, 2);
    assert {1, 2} + {3} == {1, 2, 3} && map[1 := 1, 5 := 2] - {5} == map[1 := 1];
    NextWhenFull(map[1 := 1, 5 := 2], conns[3], 3, 2, 5);
    SelectionStep(conns, {1, 2, 3}, 4, 2);
    NextWithRoom(map[1 := 1], conns[4], 4, 2);
  }

  method Smallest(s: set<Number>) returns (m: Number)
    requires s != {}
    ensures m in s && forall x :: x in s ==> m <= x
  {
    m :| m in s;
    var todo := s - {m};
    while todo != {}
      invariant todo <= s && m in s && forall x :: x in s ==> x in todo || m <= x
      decreases |todo|
    {
      var x :| x in todo;
      todo := todo - {x};
      if x < m {
        m := x;
      }
    }
  }

  method Largest(s: set<u64>) returns (m: u64)
    requires s != {}
    ensures m in s && forall x :: x in s ==> x <= m
  {
    m :| m in s;
    var todo := s - {m};
    while todo != {}
      invariant todo <= s && m in s && forall x :: x in s ==> x in todo || x <= m
      decreases |todo|
    {
      var x :| x in todo;
      todo := todo - {x};
      if x > m {
        m := x;
      }
    }
  }
}
