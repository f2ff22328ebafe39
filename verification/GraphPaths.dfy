/** Paths in a finite directed graph, and paths that stay on marked nodes. */
module GraphPaths {

  type Graph = set<(string, string)>

  predicate Path(g: Graph, p: seq<string>) {
    p != [] && forall i :: 0 <= i < |p| - 1 ==> (p[i], p[i + 1]) in g
  }

  predicate Links(p: seq<string>, a: string, b: string) {
    p != [] && p[0] == a && p[|p| - 1] == b
  }

  ghost predicate Reaches(g: Graph, a: string, b: string) {
    exists p :: Path(g, p) && Links(p, a, b)
  }

  /** The steps between marked nodes. */
  function Restrict(g: Graph, marked: set<string>): Graph {
    set e | e in g && e.0 in marked && e.1 in marked
  }

  /** Reached through marked nodes only. */
  ghost predicate ReachesOn(g: Graph, marked: set<string>, a: string, b: string) {
    a in marked && Reaches(Restrict(g, marked), a, b)
  }

  /** A path that leaves the marked nodes at its first step and comes back at its last. */
  predicate Detour(g: Graph, marked: set<string>, p: seq<string>) {
    && |p| >= 3 && Path(g, p) && p[0] in marked && p[|p| - 1] in marked
    && forall i :: 0 < i < |p| - 1 ==> p[i] !in marked
  }

  /** Every detour can be replaced by a path over marked nodes. */
  ghost predicate Bypassed(g: Graph, marked: set<string>) {
    forall p :: Detour(g, marked, p) ==> ReachesOn(g, marked, p[0], p[|p| - 1])
  }

  lemma PathJoin(g: Graph, p: seq<string>, q: seq<string>)
    requires Path(g, p) && Path(g, q) && p[|p| - 1] == q[0]
    ensures Path(g, p + q[1..]) && Links(p + q[1..], p[0], q[|q| - 1])
  {
    var r := p + q[1..];
    forall i | 0 <= i < |r| - 1 ensures (r[i], r[i + 1]) in g {
      if i < |p| - 1 {
        assert (p[i], p[i + 1]) in g;
      } else {
        var j := i - (|p| - 1);
        assert (q[j], q[j + 1]) in g;
        assert r[i] == q[j] && r[i + 1] == q[j + 1];
      }
    }
  }

  lemma ReachesJoin(g: Graph, a: string, b: string, c: string)
    requires Reaches(g, a, b) && Reaches(g, b, c)
    ensures Reaches(g, a, c)
  {
    var p :| Path(g, p) && Links(p, a, b);
    var q :| Path(g, q) && Links(q, b, c);
    PathJoin(g, p, q);
  }

  /** First marked node after the start. */
  function Return(p: seq<string>, marked: set<string>, i: nat): (k: nat)
    requires 0 < i < |p| && p[|p| - 1] in marked
    ensures i <= k < |p| && p[k] in marked
    ensures forall j :: i <= j < k ==> p[j] !in marked
    decreases |p| - i
  {
    if p[i] in marked then i else Return(p, marked, i + 1)
  }

  lemma SubPath(g: Graph, p: seq<string>, i: nat, j: nat)
    requires Path(g, p) && i < j <= |p|
    ensures Path(g, p[i..j])
  {
    var q := p[i..j];
    forall k | 0 <= k < |q| - 1 ensures (q[k], q[k + 1]) in g {
      assert (p[i + k], p[i + k + 1]) in g;
    }
  }

  /** Every step between marked nodes, and every detour, is answered in the other graph. */
  ghost predicate Answered(g: Graph, marked: set<string>, h: Graph, image: string -> string) {
    && (forall a, b :: a in marked && b in marked && (a, b) in g ==> Reaches(h, image(a), image(b)))
    && (forall p :: Detour(g, marked, p) ==> Reaches(h, image(p[0]), image(p[|p| - 1])))
  }

  /** Cut a path between marked nodes into single steps and detours, and carry each over. */
  lemma {:induction false} Carried(g: Graph, marked: set<string>, h: Graph, image: string -> string, p: seq<string>)
    requires Answered(g, marked, h, image) && Path(g, p) && p[0] in marked && p[|p| - 1] in marked
    ensures Reaches(h, image(p[0]), image(p[|p| - 1]))
    decreases |p|
  {
    if |p| == 1 {
      assert Path(h, [image(p[0])]) && Links([image(p[0])], image(p[0]), image(p[0]));
    } else {
      var k := Return(p, marked, 1);
      var head, tail := p[..k + 1], p[k..];
      SubPath(g, p, 0, k + 1);
      SubPath(g, p, k, |p|);
      assert p[0..k + 1] == head && p[k..|p|] == tail;
      assert Reaches(h, image(p[0]), image(p[k])) by {
        if k == 1 {
          assert (p[0], p[0 + 1]) in g;
        } else {
          assert Detour(g, marked, head);
        }
      }
      Carried(g, marked, h, image, tail);
      ReachesJoin(h, image(p[0]), image(p[k]), image(p[|p| - 1]));
    }
  }

  /** A graph cut down to its marked nodes has no detours. */
  lemma NoDetour(g: Graph, marked: set<string>)
    ensures forall p :: !Detour(Restrict(g, marked), marked, p)
  {
    forall p | |p| >= 3 && Path(Restrict(g, marked), p) ensures p[1] in marked {
      assert (p[0], p[0 + 1]) in Restrict(g, marked);
    }
  }

  lemma OneStep(g: Graph, a: string, b: string)
    requires (a, b) in g
    ensures Reaches(g, a, b)
  {
    assert Path(g, [a, b]) && Links([a, b], a, b);
  }

  lemma Widen(g: Graph, marked: set<string>, a: string, b: string)
    requires ReachesOn(g, marked, a, b)
    ensures Reaches(g, a, b) && b in marked
  {
    var p :| Path(Restrict(g, marked), p) && Links(p, a, b);
    assert Path(g, p);
    if |p| > 1 { assert (p[|p| - 2], p[|p| - 2 + 1]) in Restrict(g, marked); }
  }

  /** Marked nodes reach exactly the marked nodes they reach over marked nodes, if and only if
      every detour is bypassed. */
  lemma StayOnExactly(g: Graph, marked: set<string>)
    ensures Bypassed(g, marked) <==>
            forall a, b :: a in marked && b in marked && Reaches(g, a, b) ==> ReachesOn(g, marked, a, b)
  {
    if Bypassed(g, marked) {
      forall a, b | a in marked && b in marked && Reaches(g, a, b) ensures ReachesOn(g, marked, a, b) {
        var p :| Path(g, p) && Links(p, a, b);
        forall c, d | c in marked && d in marked && (c, d) in g ensures Reaches(Restrict(g, marked), c, d) {
          OneStep(Restrict(g, marked), c, d);
        }
        Carried(g, marked, Restrict(g, marked), (x: string) => x, p);
      }
    }
    if forall a, b :: a in marked && b in marked && Reaches(g, a, b) ==> ReachesOn(g, marked, a, b) {
      forall p | Detour(g, marked, p) ensures ReachesOn(g, marked, p[0], p[|p| - 1]) {
        assert Links(p, p[0], p[|p| - 1]);
        assert Reaches(g, p[0], p[|p| - 1]);
      }
    }
  }
}
