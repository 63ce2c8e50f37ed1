/** The client's local mirror of the session: its own id, the last snapshot of
    players, and the skin and heading it shows for every player id it has seen;
    and how one decoded server message changes that mirror. */
module Mirror {

  import opened Wrappers

  /** Number of car skins the client cycles through (red, blue, green, yellow). */
  const SkinCount: nat := 4

  datatype Player = Player(id: int, x: int, y: int)

  /** A decoded record: `welcome`, `state`, a record whose `type` is anything else,
      or a record that does not decode (invalid JSON, a missing key). */
  datatype Msg =
    | Welcome(id: int)
    | State(players: seq<Player>)
    | Other
    | Malformed

  /** `skins` and `angles` map a player id to its skin index and its heading in
      degrees. */
  datatype View = View(id: Option<int>, players: seq<Player>, skins: map<int, int>, angles: map<int, int>)

  /** The mirror of a freshly constructed client. */
  const Initial: View := View(None, [], map[], map[])

  /** The mirror's invariant: every id with a skin has a heading and vice versa,
      every skin is one of the `SkinCount` skins, and the client's own id has one. */
  predicate Wf(v: View)
  {
    && v.skins.Keys == v.angles.Keys
    && (forall pid | pid in v.skins :: 0 <= v.skins[pid] < SkinCount)
    && (v.id.Some? ==> v.id.value in v.skins)
  }

  /** The ids listed in a snapshot. */
  function Ids(ps: seq<Player>): set<int>
  {
    set i | 0 <= i < |ps| :: ps[i].id
  }

  /** A snapshot entry for `pid`: an id not seen before gets the next skin (the
      number of ids seen so far, modulo the skin count) and heading 0. */
  function Admit(v: View, pid: int): (r: View)
    ensures r.id == v.id && r.players == v.players
    ensures pid in v.skins ==> r == v
    ensures pid !in v.skins ==>
      && pid in r.skins && r.skins[pid] == |v.skins| % SkinCount
      && pid in r.angles && r.angles[pid] == 0
      && (forall q | q in v.skins :: q in r.skins && r.skins[q] == v.skins[q])
  {
    if pid in v.skins then v
    else v.(skins := v.skins[pid := |v.skins| % SkinCount], angles := v.angles[pid := 0])
  }

  /** The entries of a snapshot, admitted in list order. */
  function AdmitAll(v: View, ps: seq<Player>): (r: View)
    ensures r.id == v.id && r.players == v.players
    ensures v.skins.Keys <= r.skins.Keys
    decreases |ps|
  {
    if ps == [] then v else Admit(AdmitAll(v, ps[..|ps| - 1]), ps[|ps| - 1].id)
  }

  /** The effect of one decoded message on the mirror. */
  function Dispatch(v: View, m: Msg): (r: View)
    ensures r.id == (if m.Welcome? then Some(m.id) else v.id)
    ensures r.players == (if m.State? then m.players else v.players)
    ensures v.skins.Keys <= r.skins.Keys
  {
    match m
    case Welcome(i) =>
      v.(id := Some(i), skins := v.skins[i := |v.skins| % SkinCount], angles := v.angles[i := 0])
    case State(ps) => AdmitAll(v, ps).(players := ps)
    case Other => v
    case Malformed => v
  }

  /** Messages dispatched one after the other, in stream order. */
  function DispatchAll(v: View, ms: seq<Msg>): (r: View)
    ensures (forall i | 0 <= i < |ms| :: !ms[i].Welcome?) ==> r.id == v.id
    ensures (forall i | 0 <= i < |ms| :: !ms[i].State?) ==> r.players == v.players
    ensures v.skins.Keys <= r.skins.Keys
    decreases |ms|
  {
    if ms == [] then v else Dispatch(DispatchAll(v, ms[..|ms| - 1]), ms[|ms| - 1])
  }

  /** A welcome sets the client's id and gives that id, whether seen before or not,
      the skin numbered by the ids seen so far and heading 0; nothing else changes. */
  lemma WelcomeEffect(v: View, i: int)
    ensures var r := Dispatch(v, Welcome(i));
      && r.id == Some(i)
      && r.players == v.players
      && r.skins.Keys == v.skins.Keys + {i}
      && r.skins[i] == |v.skins| % SkinCount
      && r.angles[i] == 0
      && (forall pid | pid in v.skins && pid != i :: r.skins[pid] == v.skins[pid])
      && (forall pid | pid in v.angles && pid != i :: r.angles[pid] == v.angles[pid])
  {
  }

  /** A second welcome is not ignored: after `welcome 7`, a snapshot listing 3, and
      `welcome 7` again, id 7 moves from the first skin to the third. */
  lemma RepeatedWelcomeReassignsSkin()
    ensures var first := Dispatch(Initial, Welcome(7));
      var again := DispatchAll(Initial, [Welcome(7), State([Player(3, 0, 0)]), Welcome(7)]);
      && first.skins[7] == 0
      && again.id == Some(7)
      && again.skins[7] == 2
  {
    var ps := [Player(3, 0, 0)];
    var ms := [Welcome(7), State(ps), Welcome(7)];
    assert ms[..2][..1] == [Welcome(7)];
    assert ms[..2] == [Welcome(7), State(ps)];
    assert ps[..0] == [];
    var w := Dispatch(Initial, Welcome(7));
    assert DispatchAll(Initial, ms[..2][..1]) == w by {
      assert ms[..2][..1][..0] == [];
    }
    assert w.skins == map[7 := 0];
    var s := Dispatch(w, State(ps));
    assert DispatchAll(Initial, ms[..2]) == s;
    assert s.skins == map[7 := 0, 3 := 1];
    assert s.skins.Keys == {7, 3};
    assert |s.skins| == |s.skins.Keys| == 2;
    assert DispatchAll(Initial, ms) == Dispatch(s, Welcome(7));
  }

  lemma IdsSnoc(ps: seq<Player>)
    requires ps != []
    ensures Ids(ps) == Ids(ps[..|ps| - 1]) + {ps[|ps| - 1].id}
  {
    var init := ps[..|ps| - 1];
    forall pid | pid in Ids(ps) ensures pid in Ids(init) + {ps[|ps| - 1].id} {
      var i :| 0 <= i < |ps| && ps[i].id == pid;
      if i < |ps| - 1 {
        assert init[i] == ps[i];
      }
    }
    forall pid | pid in Ids(init) ensures pid in Ids(ps) {
      var i :| 0 <= i < |init| && init[i].id == pid;
      assert ps[i] == init[i];
    }
  }

  /** Admitting a snapshot adds exactly its ids to `skins` and the same new ids to
      `angles`, and touches neither the client's id nor its player list. */
  lemma {:induction false} AdmitAllKeys(v: View, ps: seq<Player>)
    ensures var r := AdmitAll(v, ps);
      && r.id == v.id && r.players == v.players
      && r.skins.Keys == v.skins.Keys + Ids(ps)
      && r.angles.Keys == v.angles.Keys + (Ids(ps) - v.skins.Keys)
    decreases |ps|
  {
    if ps != [] {
      var init := ps[..|ps| - 1];
      var pid := ps[|ps| - 1].id;
      AdmitAllKeys(v, init);
      IdsSnoc(ps);
      var mid := AdmitAll(v, init);
      AdmitKeys(mid, pid);
      SetStep(v.skins.Keys, v.angles.Keys, Ids(init), pid);
    }
  }

  lemma AdmitKeys(v: View, pid: int)
    ensures var r := Admit(v, pid);
      && r.skins.Keys == v.skins.Keys + {pid}
      && r.angles.Keys == v.angles.Keys + ({pid} - v.skins.Keys)
  {
  }

  lemma SetStep(s: set<int>, a: set<int>, ids: set<int>, pid: int)
    ensures (s + ids) + {pid} == s + (ids + {pid})
    ensures (a + (ids - s)) + ({pid} - (s + ids)) == a + ((ids + {pid}) - s)
  {
  }

  /** Admitting a snapshot leaves every id already seen with its skin and heading. */
  lemma {:induction false} AdmitAllKeepsSeen(v: View, ps: seq<Player>)
    ensures forall pid | pid in v.skins ::
      && pid in AdmitAll(v, ps).skins && AdmitAll(v, ps).skins[pid] == v.skins[pid]
      && (pid in v.angles ==> pid in AdmitAll(v, ps).angles && AdmitAll(v, ps).angles[pid] == v.angles[pid])
    decreases |ps|
  {
    if ps != [] {
      AdmitAllKeepsSeen(v, ps[..|ps| - 1]);
    }
  }

  /** Every id a snapshot introduces starts with heading 0. */
  lemma {:induction false} AdmitAllNewHeading(v: View, ps: seq<Player>)
    ensures forall pid | pid in Ids(ps) && pid !in v.skins ::
      pid in AdmitAll(v, ps).angles && AdmitAll(v, ps).angles[pid] == 0
    decreases |ps|
  {
    if ps != [] {
      var init := ps[..|ps| - 1];
      AdmitAllNewHeading(v, init);
      AdmitAllKeys(v, init);
      AdmitAllKeepsSeen(AdmitAll(v, init), [ps[|ps| - 1]]);
      IdsSnoc(ps);
      assert [ps[|ps| - 1]][..0] == [];
    }
  }

  /** No id is listed twice. */
  predicate DistinctIds(ps: seq<Player>)
  {
    forall i, j | 0 <= i < j < |ps| :: ps[i].id != ps[j].id
  }

  /** Ids never seen before, listed once each, get consecutive skins in list order,
      starting from the number of ids already seen. */
  lemma {:induction false} AdmitFreshInOrder(v: View, ps: seq<Player>)
    requires DistinctIds(ps)
    requires Ids(ps) !! v.skins.Keys
    ensures |AdmitAll(v, ps).skins| == |v.skins| + |ps|
    ensures forall i | 0 <= i < |ps| ::
      ps[i].id in AdmitAll(v, ps).skins && AdmitAll(v, ps).skins[ps[i].id] == (|v.skins| + i) % SkinCount
    decreases |ps|
  {
    if ps != [] {
      var init := ps[..|ps| - 1];
      assert DistinctIds(init) && Ids(init) !! v.skins.Keys by {
        forall i, j | 0 <= i < j < |init| ensures init[i].id != init[j].id {
          assert init[i] == ps[i] && init[j] == ps[j];
        }
        IdsSnoc(ps);
      }
      AdmitFreshInOrder(v, init);
      var mid := AdmitAll(v, init);
      assert forall i | 0 <= i < |ps| - 1 ::
        ps[i].id in mid.skins && mid.skins[ps[i].id] == (|v.skins| + i) % SkinCount
      by {
        forall i | 0 <= i < |ps| - 1
          ensures ps[i].id in mid.skins && mid.skins[ps[i].id] == (|v.skins| + i) % SkinCount
        {
          assert init[i] == ps[i];
        }
      }
      FreshLast(v, ps);
      AdmitFreshStep(v, ps);
    }
  }

  /** The last entry of a snapshot of distinct unseen ids is not among the ids admitted
      before it. */
  lemma FreshLast(v: View, ps: seq<Player>)
    requires ps != [] && DistinctIds(ps) && Ids(ps) !! v.skins.Keys
    ensures ps[|ps| - 1].id !in AdmitAll(v, ps[..|ps| - 1]).skins
  {
    var init := ps[..|ps| - 1];
    IdsSnoc(ps);
    AdmitAllKeys(v, init);
    assert ps[|ps| - 1].id in Ids(ps);
  }

  /** The inductive step of `AdmitFreshInOrder`: the last entry of the snapshot. */
  lemma AdmitFreshStep(v: View, ps: seq<Player>)
    requires ps != []
    requires var mid := AdmitAll(v, ps[..|ps| - 1]);
      && ps[|ps| - 1].id !in mid.skins
      && |mid.skins| == |v.skins| + |ps| - 1
      && forall i | 0 <= i < |ps| - 1 ::
        ps[i].id in mid.skins && mid.skins[ps[i].id] == (|v.skins| + i) % SkinCount
    ensures |AdmitAll(v, ps).skins| == |v.skins| + |ps|
    ensures forall i | 0 <= i < |ps| ::
      ps[i].id in AdmitAll(v, ps).skins && AdmitAll(v, ps).skins[ps[i].id] == (|v.skins| + i) % SkinCount
  {
    var mid := AdmitAll(v, ps[..|ps| - 1]);
    AdmitLast(mid, ps, |v.skins|, AdmitAll(v, ps));
  }

  lemma AdmitLast(mid: View, ps: seq<Player>, base: nat, r: View)
    requires ps != [] && ps[|ps| - 1].id !in mid.skins
    requires r == Admit(mid, ps[|ps| - 1].id)
    requires |mid.skins| == base + |ps| - 1
    requires forall i | 0 <= i < |ps| - 1 ::
      ps[i].id in mid.skins && mid.skins[ps[i].id] == (base + i) % SkinCount
    ensures |r.skins| == base + |ps|
    ensures forall i | 0 <= i < |ps| :: ps[i].id in r.skins && r.skins[ps[i].id] == (base + i) % SkinCount
  {
    var last := ps[|ps| - 1].id;
    assert r.skins == mid.skins[last := |mid.skins| % SkinCount];
    forall i | 0 <= i < |ps|
      ensures ps[i].id in r.skins && r.skins[ps[i].id] == (base + i) % SkinCount
    {
      if i < |ps| - 1 {
        assert ps[i].id != last;
      }
    }
  }

  /** Every message keeps the mirror's invariant. */
  lemma DispatchKeepsWf(v: View, m: Msg)
    requires Wf(v)
    ensures Wf(Dispatch(v, m))
  {
    if m.State? {
      AdmitAllKeepsWf(v, m.players);
    }
  }

  lemma {:induction false} AdmitAllKeepsWf(v: View, ps: seq<Player>)
    requires Wf(v)
    ensures Wf(AdmitAll(v, ps))
    decreases |ps|
  {
    if ps != [] {
      AdmitAllKeepsWf(v, ps[..|ps| - 1]);
    }
  }

  /** Message handling only ever adds ids to `skins` and `angles`, never removes one,
      and never changes the skin of an id it does not name. */
  lemma DispatchOnlyAdds(v: View, m: Msg)
    ensures var r := Dispatch(v, m);
      && v.skins.Keys <= r.skins.Keys
      && v.angles.Keys <= r.angles.Keys
      && (forall pid | pid in v.skins && (m.Welcome? ==> pid != m.id) :: r.skins[pid] == v.skins[pid])
  {
    if m.State? {
      AdmitAllKeys(v, m.players);
      AdmitAllKeepsSeen(v, m.players);
    }
  }

  /** A sequence of messages keeps the invariant and only ever adds ids. */
  lemma {:induction false} DispatchAllKeepsWf(v: View, ms: seq<Msg>)
    requires Wf(v)
    ensures Wf(DispatchAll(v, ms))
    ensures v.skins.Keys <= DispatchAll(v, ms).skins.Keys
    decreases |ms|
  {
    if ms != [] {
      var init := ms[..|ms| - 1];
      DispatchAllKeepsWf(v, init);
      DispatchKeepsWf(DispatchAll(v, init), ms[|ms| - 1]);
      DispatchOnlyAdds(DispatchAll(v, init), ms[|ms| - 1]);
    }
  }

  /** Dispatching two runs of messages one after the other is dispatching their
      concatenation: the mirror depends only on the message order, not on how the
      messages were grouped. */
  lemma {:induction false} DispatchAllAppend(v: View, ms1: seq<Msg>, ms2: seq<Msg>)
    ensures DispatchAll(v, ms1 + ms2) == DispatchAll(DispatchAll(v, ms1), ms2)
    decreases |ms2|
  {
    if ms2 == [] {
      assert ms1 + ms2 == ms1;
    } else {
      var init := ms2[..|ms2| - 1];
      assert (ms1 + ms2)[..|ms1 + ms2| - 1] == ms1 + init;
      DispatchAllAppend(v, ms1, init);
    }
  }

  /** A record that is not `welcome` or `state` changes nothing. */
  lemma OtherChangesNothing(v: View)
    ensures Dispatch(v, Other) == v && Dispatch(v, Malformed) == v
  {
  }
}
