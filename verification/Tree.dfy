/** Mazes as trees: rooms joined one at a time to what is already open. */
module Tree {
  type Room = (int, int)  // (row, column)

  datatype Edge = Edge(from: Room, to: Room)

  function Opened(start: Room, es: seq<Edge>): set<Room>
    decreases |es|
  {
    if es == [] then {start} else Opened(start, es[..|es| - 1]) + {es[|es| - 1].to}
  }

  /** Each edge leads from an open room to one that was not open yet. */
  ghost predicate Grown(start: Room, es: seq<Edge>)
    decreases |es|
  {
    es == [] ||
    var init, e := es[..|es| - 1], es[|es| - 1];
    Grown(start, init) && e.from in Opened(start, init) && e.to !in Opened(start, init)
  }

  predicate Joined(es: seq<Edge>, a: Room, b: Room) {
    exists i :: 0 <= i < |es| && (es[i] == Edge(a, b) || es[i] == Edge(b, a))
  }

  /** A route: rooms in a row, each joined to the next, none twice. */
  ghost predicate Route(es: seq<Edge>, rs: seq<Room>, a: Room, b: Room) {
    && |rs| > 0 && rs[0] == a && rs[|rs| - 1] == b
    && (forall i :: 0 <= i < |rs| - 1 ==> Joined(es, rs[i], rs[i + 1]))
    && (forall i, j :: 0 <= i < j < |rs| ==> rs[i] != rs[j])
  }

  lemma {:induction false} OpenedCount(start: Room, es: seq<Edge>)
    requires Grown(start, es)
    ensures |Opened(start, es)| == |es| + 1
    decreases |es|
  {
    if es != [] {
      OpenedCount(start, es[..|es| - 1]);
    }
  }

  lemma OpenedAppend(start: Room, es: seq<Edge>, e: Edge)
    ensures Opened(start, es + [e]) == Opened(start, es) + {e.to}
    ensures Grown(start, es) && e.from in Opened(start, es) && e.to !in Opened(start, es) ==> Grown(start, es + [e])
  {
    assert (es + [e])[..|es|] == es;
  }

  lemma {:induction false} EndsAreOpen(start: Room, es: seq<Edge>, i: nat)
    requires Grown(start, es) && i < |es|
    ensures es[i].from in Opened(start, es) && es[i].to in Opened(start, es)
    decreases |es|
  {
    if i < |es| - 1 {
      EndsAreOpen(start, es[..|es| - 1], i);
    }
  }

  lemma JoinedAppend(start: Room, es: seq<Edge>, a: Room, b: Room)
    requires Grown(start, es) && es != []
    ensures var init, e := es[..|es| - 1], es[|es| - 1];
            && (Joined(es, a, b) <==> Joined(init, a, b) || e == Edge(a, b) || e == Edge(b, a))
            && (Joined(init, a, b) ==> a in Opened(start, init) && b in Opened(start, init))
  {
    var init, e := es[..|es| - 1], es[|es| - 1];
    if Joined(init, a, b) {
      var i :| 0 <= i < |init| && (init[i] == Edge(a, b) || init[i] == Edge(b, a));
      assert es[i] == init[i];
      EndsAreOpen(start, init, i);
    }
    if Joined(es, a, b) && e != Edge(a, b) && e != Edge(b, a) {
      var i :| 0 <= i < |es| && (es[i] == Edge(a, b) || es[i] == Edge(b, a));
      assert init[i] == es[i];
    }
  }

  /** The last room opened is joined to one room only. */
  lemma Leaf(start: Room, es: seq<Edge>, a: Room)
    requires Grown(start, es) && es != []
    ensures var e := es[|es| - 1];
            && (Joined(es, a, e.to) <==> a == e.from) && (Joined(es, e.to, a) <==> a == e.from)
            && e.from != e.to
  {
    var e := es[|es| - 1];
    JoinedAppend(start, es, a, e.to);
    JoinedAppend(start, es, e.to, a);
  }

  // A route that misses the last room opened is a route of the smaller tree.
  lemma ShorterTree(start: Room, es: seq<Edge>, rs: seq<Room>, a: Room, b: Room)
    requires Grown(start, es) && es != [] && Route(es, rs, a, b) && es[|es| - 1].to !in rs
    ensures Route(es[..|es| - 1], rs, a, b)
  {
    forall i | 0 <= i < |rs| - 1 ensures Joined(es[..|es| - 1], rs[i], rs[i + 1]) {
      JoinedAppend(start, es, rs[i], rs[i + 1]);
      assert rs[i] in rs && rs[i + 1] in rs;
    }
  }

  // ... and a route meets that room at its ends only.
  lemma LeafAtEnds(start: Room, es: seq<Edge>, rs: seq<Room>, a: Room, b: Room)
    requires Grown(start, es) && es != [] && Route(es, rs, a, b)
    requires a != es[|es| - 1].to && b != es[|es| - 1].to
    ensures es[|es| - 1].to !in rs
  {
    var v := es[|es| - 1].to;
    forall i | 0 <= i < |rs| ensures rs[i] != v {
      if rs[i] == v {
        assert 0 < i < |rs| - 1;
        assert Joined(es, rs[i - 1], rs[i - 1 + 1]) && Joined(es, rs[i], rs[i + 1]) && rs[i - 1] != rs[i + 1];
        Leaf(start, es, rs[i - 1]);
        Leaf(start, es, rs[i + 1]);
      }
    }
  }

  /** Between any two open rooms there is at most one route. */
  lemma {:induction false} RouteUnique(start: Room, es: seq<Edge>, a: Room, b: Room, rs: seq<Room>, ts: seq<Room>)
    requires Grown(start, es) && Route(es, rs, a, b) && Route(es, ts, a, b)
    ensures rs == ts
    decreases |es|, |rs|
  {
    if a == b {
      OnlyItself(es, a, rs);
      OnlyItself(es, a, ts);
    } else {
      assert Joined(es, rs[0], rs[0 + 1]);
      assert es != [];
      var init, e := es[..|es| - 1], es[|es| - 1];
      if a == e.to {
        Leaf(start, es, rs[1]);
        Leaf(start, es, ts[1]);
        assert Joined(es, rs[0], rs[0 + 1]) && Joined(es, ts[0], ts[0 + 1]);
        TailRoute(start, es, a, b, rs);
        TailRoute(start, es, a, b, ts);
        RouteUnique(start, init, e.from, b, rs[1..], ts[1..]);
        assert rs == [a] + rs[1..] && ts == [a] + ts[1..];
      } else if b == e.to {
        Leaf(start, es, rs[|rs| - 2]);
        Leaf(start, es, ts[|ts| - 2]);
        assert Joined(es, rs[|rs| - 2], rs[|rs| - 2 + 1]) && Joined(es, ts[|ts| - 2], ts[|ts| - 2 + 1]);
        HeadRoute(start, es, a, b, rs);
        HeadRoute(start, es, a, b, ts);
        RouteUnique(start, init, a, e.from, rs[..|rs| - 1], ts[..|ts| - 1]);
        assert rs == rs[..|rs| - 1] + [b] && ts == ts[..|ts| - 1] + [b];
      } else {
        LeafAtEnds(start, es, rs, a, b);
        LeafAtEnds(start, es, ts, a, b);
        ShorterTree(start, es, rs, a, b);
        ShorterTree(start, es, ts, a, b);
        RouteUnique(start, init, a, b, rs, ts);
      }
    }
  }

  lemma OnlyItself(es: seq<Edge>, a: Room, rs: seq<Room>)
    requires Route(es, rs, a, a)
    ensures rs == [a]
  {
    assert rs[0] == rs[|rs| - 1];
  }

  lemma TailRoute(start: Room, es: seq<Edge>, a: Room, b: Room, rs: seq<Room>)
    requires Grown(start, es) && es != [] && Route(es, rs, a, b) && a != b && a == es[|es| - 1].to
    requires |rs| > 1 && rs[1] == es[|es| - 1].from
    ensures Route(es[..|es| - 1], rs[1..], es[|es| - 1].from, b)
  {
    var ts := rs[1..];
    forall i | 0 <= i < |ts| - 1 ensures Joined(es, ts[i], ts[i + 1]) {
      assert Joined(es, rs[i + 1], rs[i + 1 + 1]);
    }
    assert Route(es, ts, rs[1], b);
    assert forall i :: 0 <= i < |ts| ==> ts[i] != rs[0];
    ShorterTree(start, es, ts, rs[1], b);
  }

  lemma HeadRoute(start: Room, es: seq<Edge>, a: Room, b: Room, rs: seq<Room>)
    requires Grown(start, es) && es != [] && Route(es, rs, a, b) && a != b && b == es[|es| - 1].to
    requires |rs| > 1 && rs[|rs| - 2] == es[|es| - 1].from
    ensures Route(es[..|es| - 1], rs[..|rs| - 1], a, es[|es| - 1].from)
  {
    var ts := rs[..|rs| - 1];
    forall i | 0 <= i < |ts| - 1 ensures Joined(es, ts[i], ts[i + 1]) {
      assert Joined(es, rs[i], rs[i + 1]);
    }
    assert Route(es, ts, a, rs[|rs| - 2]);
    assert forall i :: 0 <= i < |ts| ==> ts[i] != rs[|rs| - 1];
    ShorterTree(start, es, ts, a, rs[|rs| - 2]);
  }

  /** Between any two open rooms there is a route, through open rooms only. */
  lemma {:induction false} RouteExists(start: Room, es: seq<Edge>, a: Room, b: Room) returns (rs: seq<Room>)
    requires Grown(start, es) && a in Opened(start, es) && b in Opened(start, es)
    ensures Route(es, rs, a, b) && forall i :: 0 <= i < |rs| ==> rs[i] in Opened(start, es)
    decreases |es|
  {
    if a == b {
      rs := [a];
    } else {
      var init, e := es[..|es| - 1], es[|es| - 1];
      var ts := RouteExists(start, init, if a == e.to then e.from else a, if b == e.to then e.from else b);
      forall i | 0 <= i < |ts| - 1 ensures Joined(es, ts[i], ts[i + 1]) {
        JoinedAppend(start, es, ts[i], ts[i + 1]);
      }
      if a == e.to {
        Leaf(start, es, e.from);
        rs := [a] + ts;
      } else if b == e.to {
        Leaf(start, es, e.from);
        rs := ts + [b];
      } else {
        rs := ts;
      }
    }
  }
}
