/**
 * What the searches promise, and the goal-list bookkeeping that the
 * `search_all` variants of depth-first, iterative-deepening, A* and greedy
 * search share: each goal reached is appended to the found list, removed
 * from the agent's goals, its trace appended to the path, and the search
 * restarts at it.
 */
module GoalLists {
  import opened Wrappers
  import opened Cells
  import opened Grids
  import opened Agents
  import opened Searching
  import Seqs

  /** What `search` promises: a goal with a legal route to it, or, when none is reachable, the count of every reachable cell. */
  ghost predicate OneFound(g: Grid, start: Pos, goals: seq<Pos>, r: Outcome)
  {
    && (r.Goal? || r.Count?)
    && r.count >= 1
    && (r.Goal? ==>
          && r.goal in goals
          && Route(g, false, start, r.path) && Walk(start, r.path) == r.goal
          && r.count <= |ReachableSet(g, false, start)|)
    && (r.Count? ==>
          && (forall q :: q in goals ==> !Reachable(g, false, start, q))
          && r.count == |ReachableSet(g, false, start)|)
  }

  /** A start that is itself a goal is the answer, with an empty path. */
  lemma FoundAtStart(g: Grid, start: Pos, goals: seq<Pos>)
    requires g.InBounds(start) && start in goals
    ensures OneFound(g, start, goals, Goal([], start, 1))
  {
    assert IsWalk(g, false, [start]);
    assert start in ReachableSet(g, false, start);
    assert |ReachableSet(g, false, start)| >= 1 by {
      assert {start} <= ReachableSet(g, false, start);
    }
  }

  /**
   * The goal bookkeeping of `search_all`: the goals `found` so far plus the
   * goals still wanted make up the original list, counting repetitions, and
   * no closed cell is still wanted.
   */
  ghost predicate Tallied(targets: seq<Pos>, goals: seq<Pos>, found: seq<Pos>, closed: set<Pos>)
  {
    && multiset(found) + multiset(goals) == multiset(targets)
    && (forall c :: c in closed ==> c !in goals)
  }

  /** The state right after a goal is recorded: `root` has no parent, nothing is closed, and the path leads from the start through the found goals to `root`. */
  ghost predicate Restarted(g: Grid, start: Pos, targets: seq<Pos>, cells: seq<seq<Cell>>,
                            root: Pos, count: int, path: seq<Token>, goals: seq<Pos>, found: seq<Pos>)
  {
    && g.InBounds(root) && At(cells, root).parent == None
    && Tallied(targets, goals, found, {})
    && Travelled(g, false, start, path, ToSet(found), root)
    && count >= 1
  }

  /** The state after the reset: nothing found, the path empty, the start as root. */
  lemma FreshStart(g: Grid, start: Pos, targets: seq<Pos>, cells: seq<seq<Cell>>)
    requires g.InBounds(start) && At(cells, start).parent == None
    ensures Restarted(g, start, targets, cells, start, 1, [], targets, [])
  {
    assert IsWalk(g, false, [start]);
    assert ToSet([]) == {};
  }

  /**
   * A goal `c` reached from the current root by the route `p`: the state
   * after recording it, with `c` the new root and its parent link cleared.
   */
  lemma Reached(g: Grid, start: Pos, targets: seq<Pos>, cells: seq<seq<Cell>>, root: Pos, count: int,
                path: seq<Token>, goals: seq<Pos>, found: seq<Pos>, closed: set<Pos>, c: Pos, p: seq<Token>)
    requires Tallied(targets, goals, found, closed) && Travelled(g, false, start, path, ToSet(found), root)
    requires c in goals && g.InBounds(c) && count >= 1
    requires Route(g, false, root, p) && Walk(root, p) == c && Reachable(g, false, root, c)
    requires c == root || !g.Blocked(c)
    ensures Restarted(g, start, targets, Put(cells, c, At(cells, c).(parent := None)), c, count,
                      path + p, Seqs.RemoveFirst(goals, c), found + [c])
  {
    RouteAppend(g, false, start, path, p);
    assert Visits(start, path + p, c) by {
      assert (path + p)[..|path + p|] == path + p;
    }
    ToSetSnoc(found, c);
    JoinReach(g, false, start, root, c);
    Seqs.RemoveFirstMultiset(goals, c);
    assert multiset(found + [c]) == multiset(found) + multiset{c};
  }

  /** Where an agent that moves to each goal it records stands once `found` is recorded: the start, or the last goal found. */
  ghost function Standing(start: Pos, found: seq<Pos>): Pos
  {
    if found == [] then start else found[|found| - 1]
  }

  /** An agent that moves to each goal it records stands at the start or at one of the original goals. */
  lemma StandsOnGoal(start: Pos, found: seq<Pos>, goals: seq<Pos>, targets: seq<Pos>)
    requires multiset(found) + multiset(goals) == multiset(targets)
    ensures Standing(start, found) == start || Standing(start, found) in targets
  {
    if found != [] {
      assert found[|found| - 1] in multiset(found);
      assert found[|found| - 1] in multiset(targets);
    }
  }

  /** A turn that records no goal leaves the agent where it was; one that records a goal finds it where the agent now stands. */
  lemma NextLeg(start: Pos, found: seq<Pos>, found': seq<Pos>, root: Pos, root': Pos)
    requires root == Standing(start, found)
    requires (found' == found && root' == root) || found' == found + [root']
    ensures root' == Standing(start, found')
  {
  }

  /**
   * Where a `search_all` that moves the agent to each goal it records but
   * the last leaves the agent, given its result `r`: at the start or at one
   * of the original goals `targets`; when every goal was found, at the start
   * of the last leg, which is the start for a single goal and otherwise the
   * goal found just before the last one.
   */
  ghost predicate LeftAt(start: Pos, targets: seq<Pos>, r: Outcome, cell: Pos)
  {
    && (cell == start || cell in targets)
    && (r.Goals? ==> |r.goals| >= 1 && cell == if |r.goals| == 1 then start else r.goals[|r.goals| - 2])
  }

  /** A search that stops with a count leaves the agent where the goals found so far put it. */
  lemma StoppedAt(start: Pos, targets: seq<Pos>, goals: seq<Pos>, found: seq<Pos>, count: int)
    requires multiset(found) + multiset(goals) == multiset(targets)
    ensures LeftAt(start, targets, Count(count), Standing(start, found))
  {
    StandsOnGoal(start, found, goals, targets);
  }

  /** The last goal recorded, with the agent left where it stood. */
  lemma LastLeg(start: Pos, targets: seq<Pos>, goals: seq<Pos>, found: seq<Pos>, cell: Pos, r: Outcome)
    requires multiset(found) + multiset(goals) == multiset(targets)
    requires cell == Standing(start, found)
    requires r.Goals? && |r.goals| == |found| + 1 && r.goals[..|found|] == found
    ensures LeftAt(start, targets, r, cell)
  {
    StandsOnGoal(start, found, goals, targets);
    if found != [] {
      assert r.goals[|r.goals| - 2] == r.goals[..|found|][|found| - 1];
    }
  }

  /** What `search_all` promises, given the original goal list `targets` and the goals `left` in the agent's list at the end. */
  ghost predicate AllFound(g: Grid, start: Pos, targets: seq<Pos>, left: seq<Pos>, r: Outcome)
  {
    && (r.Goals? || r.Count?)
    && r.count >= 1
    && (r.Goals? ==>
          && left == []
          && multiset(r.goals) == multiset(targets)
          && Route(g, false, start, r.path)
          && (forall i :: 0 <= i < |r.goals| ==> Visits(start, r.path, r.goals[i])))
    && (r.Count? ==>
          && multiset(left) <= multiset(targets)
          && (targets != [] ==> left != [])
          && (!g.Blocked(start) ==> forall q :: q in left ==> !Reachable(g, false, start, q)))
  }

  /** The last goal recorded: the path through every found goal is the answer. */
  lemma FoundAll(g: Grid, start: Pos, targets: seq<Pos>, cells: seq<seq<Cell>>,
                 root: Pos, count: int, path: seq<Token>, found: seq<Pos>)
    requires Restarted(g, start, targets, cells, root, count, path, [], found)
    ensures AllFound(g, start, targets, [], Goals(path, found, count))
  {
    forall i | 0 <= i < |found| ensures Visits(start, path, found[i]) {
      assert found[i] in ToSet(found);
    }
  }

  /**
   * Record the goal `c`: append its trace to the path, note it as found and
   * drop it from the agent's goals; unless that was the last goal, clear
   * its parent link so the search restarts there.
   */
  method Record(agent: Agent, ghost start: Pos, ghost targets: seq<Pos>, c: Pos, ghost n: nat,
                count: int, path: seq<Token>, found: seq<Pos>)
    returns (answer: Option<Outcome>, path': seq<Token>, found': seq<Pos>)
    requires agent.Valid() && agent.grid.InBounds(c) && c in agent.goals && RootedWithin(agent.grid.cells, c, n)
    requires Restarted(agent.grid, start, targets,
                       Put(agent.grid.cells, c, At(agent.grid.cells, c).(parent := None)),
                       c, count, path + Tokens(agent.grid.cells, c, n, agent.canJump, true),
                       Seqs.RemoveFirst(agent.goals, c), found + [c])
    modifies agent, agent.grid
    ensures agent.Valid()
    ensures agent.goals == Seqs.RemoveFirst(old(agent.goals), c) && found' == found + [c] && agent.cell == old(agent.cell)
    ensures answer.Some? ==> agent.goals == [] && answer.value == Goals(path', found', count)
    ensures answer.Some? ==> AllFound(agent.grid, start, targets, [], answer.value)
    ensures answer.None? ==> agent.goals != [] && Restarted(agent.grid, start, targets, agent.grid.cells, c, count, path', agent.goals, found')
  {
    var p := agent.TracePath(c, true, n);
    ghost var cells0 := agent.grid.cells;
    agent.RemoveGoal(c);
    path', found' := path + p, found + [c];
    if agent.goals == [] {
      FoundAll(agent.grid, start, targets, Put(cells0, c, At(cells0, c).(parent := None)), c, count, path', found');
      answer := Some(Goals(path', found', count));
    } else {
      agent.grid.Detach(c);
      answer := None;
    }
  }
}
