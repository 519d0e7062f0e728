/** The router of one node: an array of finger entries and an optional predecessor, changed in place. */
module Router {
  import opened Options
  import opened Ring
  import opened FingerTable

  /** A finger: where it starts and the node it holds. */
  datatype Entry = Entry(start: Id, node: Option<Id>)

  class Router {
    const m: nat
    const self: Id
    const successors: array<Entry>
    var predecessor: Option<Id>

    ghost predicate Sized()
      reads this, successors
    {
      && m >= 2 && IsId(m, self) && successors.Length == m
      && forall i :: 0 <= i < m ==> successors[i].start == Start(m, self, i)
    }

    /** What this router knows, as a value. */
    ghost function State(): Table
      reads this, successors
    {
      var n := successors.Length;
      Table(m, self, seq(n, i requires 0 <= i < n reads this, successors => successors[i].node), predecessor)
    }

    ghost predicate Valid()
      reads this, successors
    {
      Sized() && State().Consistent()
    }

    constructor (m: nat, self: Id)
      requires m >= 2 && IsId(m, self)
      ensures this.m == m && this.self == self && fresh(successors)
      ensures Valid() && State() == Empty(m, self)
    {
      this.m, this.self := m, self;
      successors := new Entry[m](_ => Entry(0, None));
      predecessor := None;
      new;
      Init();
      EmptyIsExact(m, self);
    }

    method Init()
      requires m >= 2 && IsId(m, self) && successors.Length == m
      modifies successors
      ensures Sized() && State() == Empty(m, self).(pred := predecessor)
    {
      for idx := 0 to successors.Length
        invariant forall i :: 0 <= i < idx ==> successors[i] == Entry(Start(m, self, i), None)
      {
        successors[idx] := Entry(Start(m, self, idx), None);
      }
    }

    method Reset()
      requires Sized()
      modifies this, successors
      ensures Valid() && State() == Empty(m, self)
    {
      predecessor := None;
      Init();
      EmptyIsExact(m, self);
    }

    /** Forward scan. `succ` and `pred` are the nodes whose replacement is signalled. */
    method Update(x: Id) returns (changed: bool, succ: Option<Id>, pred: Option<Id>)
      requires Valid() && IsId(m, x)
      modifies this, successors
      ensures Valid() && State() == old(State()).Update(x)
      ensures changed <==> State().fingers != old(State()).fingers
      ensures succ == if old(State()).fingers[0] != State().fingers[0] then old(State()).fingers[0] else None
      ensures pred == if old(predecessor) != predecessor then Some(old(predecessor).Or(self)) else None
    {
      changed, succ, pred := false, None, None;
      if x == self {
        return;
      }
      UpdateConsistent(State(), x);
      ghost var was := State();
      for i := 0 to successors.Length
        invariant Sized() && predecessor == was.pred
        invariant forall k :: 0 <= k < i ==> successors[k].node == was.Update(x).fingers[k]
        invariant forall k :: i <= k < m ==> successors[k].node == was.fingers[k]
        invariant changed <==> exists k :: 0 <= k < i && successors[k].node != was.fingers[k]
        invariant succ == if i > 0 && was.fingers[0] != successors[0].node then was.fingers[0] else None
      {
        assert was.Nearest(i, was.Nodes());
        ImprovesIsNearer(was, i, x);
        if Between(successors[i].start, x, successors[i].node.Or(self)) {
          if i == 0 && successors[0].node.Some? {
            succ := successors[0].node;
          }
          successors[i] := successors[i].(node := Some(x));
          changed := true;
        }
      }
      if predecessor.None? || (x != predecessor.value && Between(predecessor.value, x, self)) {
        pred := Some(predecessor.Or(self));
        predecessor := Some(x);
      }
      assert State().fingers == was.Update(x).fingers;
    }

    /** The scan at entry `i`. The cursor moves to an entry that stays. */
    method ReplaceFinger(u: Id, i: nat, cursor: nat) returns (replacement: nat)
      requires i < successors.Length == m && cursor <= m
      modifies this`predecessor, successors
      ensures var entry := old(successors[i]);
              && successors[i] == (if entry.node != Some(u) then entry
                                   else entry.(node := if cursor < m then old(successors[cursor]).node else None))
              && replacement == (if entry.node.Some? && entry.node.value != u && entry.node.value != self
                                 then i else cursor)
              && predecessor == if old(predecessor) == Some(u) && entry.node.Some? then entry.node else old(predecessor)
      ensures forall k :: 0 <= k < m && k != i ==> successors[k] == old(successors[k])
    {
      replacement := cursor;
      if successors[i].node.Some? {
        var node := successors[i].node.value;
        if predecessor == Some(u) && node != u {
          predecessor := Some(node);
        }
        if node == u {
          successors[i] := successors[i].(node := if cursor < m then successors[cursor].node else None);
        } else if node != self {
          replacement := i;
        }
      }
    }

    /** The backward scan of `Remove`, with a cursor on the entry that replaces a removed one. */
    method ReplaceFingers(u: Id)
      requires successors.Length == m > 0
      requires forall i :: 0 <= i < m ==> successors[i].node != Some(self)
      modifies this`predecessor, successors
      ensures forall i :: 0 <= i < m ==> successors[i].start == old(successors[i].start)
      ensures State() == old(State()).Remove(u)
    {
      ghost var was, want := State(), State().Remove(u).fingers;
      var replacement := m - 1;
      if successors[m - 1].node.None? || (successors[m - 1].node == Some(u) && u != self) {
        replacement := m; // past the end
      }
      var i := m;
      while i > 0
        invariant 0 <= i <= m && 0 <= replacement <= m
        invariant var cursor := if replacement < m then successors[replacement].node else None;
                  || cursor == FirstOther(was.fingers, i, u)
                  || (i == m && replacement == m - 1 && cursor == was.fingers[m - 1]
                      && cursor.Some? && cursor.value != u)
        invariant replacement < m ==> successors[replacement].node.Some?
        invariant forall k :: 0 <= k < m ==> successors[k].start == old(successors[k].start)
        invariant forall k :: 0 <= k < i ==> successors[k].node == was.fingers[k]
        invariant forall k :: i <= k < m ==> successors[k].node == want[k]
        invariant predecessor == if was.pred == Some(u) then LastOther(was.fingers, i, u).OrElse(was.pred) else was.pred
      {
        i := i - 1;
        replacement := ReplaceFinger(u, i, replacement);
      }
      if predecessor == Some(u) {
        predecessor := None;
      }
      assert State().fingers == want;
    }

    /** Drop a node. `succFailed` and `predFailed` are the removed neighbours to signal; the result flag is
        never set. */
    method Remove(u: Id) returns (changed: bool, succFailed: Option<Id>, predFailed: Option<Id>)
      requires Valid()
      modifies this, successors
      ensures Valid() && State() == old(State()).Remove(u)
      ensures !changed
      ensures succFailed == if old(State()).fingers[0] == Some(u) then Some(u) else None
      ensures predFailed == if old(predecessor) == Some(u) then Some(u) else None
    {
      changed, succFailed, predFailed := false, None, None;
      RemoveRebuilds(State(), u);
      if successors[0].node == Some(u) {
        succFailed := successors[0].node;
      }
      if predecessor == Some(u) {
        predFailed := predecessor;
      }
      assert forall i :: 0 <= i < m ==> successors[i].node == State().fingers[i];
      ReplaceFingers(u);
    }

    /** The fingers strictly between this node and `id`, farthest first, and then the node itself. */
    method ClosestPrecedingNodes(id: Id) returns (ret: seq<Id>)
      requires Valid() && IsId(m, id)
      ensures ret == Preceding(State(), id)
      ensures ret[|ret| - 1] == self
      ensures forall x :: x in ret[..|ret| - 1] <==> x in State().Nodes() && Between(self, x, id)
      ensures forall a, b :: 0 <= a < b < |ret| ==> State().Off(ret[b]) < State().Off(ret[a])
    {
      ret := [];
      var i := m;
      while i > 0
        invariant 0 <= i <= m && ret == Candidates(State(), id, i)
      {
        i := i - 1;
        if successors[i].node.Some? && Between(self, successors[i].node.value, id) {
          var node := successors[i].node.value;
          if ret == [] || ret[|ret| - 1] != node {
            ret := ret + [node];
          }
        }
      }
      PrecedingNodes(State(), id);
      assert ret != [] ==> ret[0] in Preceding(State(), id)[..|ret|];
      if ret == [] || ret[0] != self {
        ret := ret + [self];
      }
    }

    /** The set of nodes held by the fingers. */
    method Get() returns (nodes: set<Id>)
      requires Valid()
      ensures nodes == State().Nodes()
    {
      nodes := {};
      for i := 0 to successors.Length
        invariant nodes == set k | 0 <= k < i && State().fingers[k].Some? :: State().fingers[k].value
      {
        ghost var before := nodes;
        if successors[i].node.Some? {
          nodes := nodes + {successors[i].node.value};
        }
        forall x | x in nodes
          ensures x in (set k | 0 <= k <= i && State().fingers[k].Some? :: State().fingers[k].value)
        {
          assert x in before || Some(x) == State().fingers[i];
        }
      }
    }

    method Successor() returns (node: Option<Id>)
      requires Valid()
      ensures node == State().Successor()
    {
      node := successors[0].node;
    }

    method SuccessorOrSelf() returns (node: Id)
      requires Valid()
      ensures node == State().SuccessorOrSelf()
    {
      node := successors[0].node.Or(self);
    }
  }
}
