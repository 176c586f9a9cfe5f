// The named move table of the rule-based agent: twelve move names, listed in
// the order of the emulator's COMPLEX_MOVEMENT action set, and the dictionary
// that gives each name its action index.

module Actions {
  import opened Python

  /** `moves`: the move names, in action-index order. */
  const Moves: seq<string> := [
    "NOTHING", "RIGHT", "RIGHT_JUMP", "RIGHT_RUN", "RIGHT_JUMP_RUN", "JUMP",
    "LEFT", "LEFT_JUMP", "LEFT_RUN", "LEFT_JUMP_RUN", "DOWN", "UP"
  ]

  /** Number of entries in the move table, the argument of `range`. */
  const MoveCount: nat := 12

  /** `actions = dict(zip(moves, range(12)))`. */
  function ActionTable(): map<string, int>
  {
    DictOf(Zip(Moves, Range(MoveCount)))
  }

  /** No move name is listed twice. */
  lemma MovesDistinct()
    ensures |Moves| == MoveCount
    ensures forall i, j :: 0 <= i < j < |Moves| ==> Moves[i] != Moves[j]
  {
  }

  /** The table gives `Moves[i]` the index `i`, and holds no other names. */
  lemma ActionTableIndex(i: nat)
    requires i < MoveCount
    ensures ActionTable().Keys == set m | m in Moves
    ensures Moves[i] in ActionTable() && ActionTable()[Moves[i]] == i
  {
    var pairs := Zip(Moves, Range(MoveCount));
    MovesDistinct();
    assert DistinctKeys(pairs);
    DictOfLookup(pairs, i);
    DictOfKeys(pairs);
    assert (set k | 0 <= k < |pairs| :: pairs[k].0) == set m | m in Moves by {
      forall m | m in Moves ensures exists k :: 0 <= k < |pairs| && pairs[k].0 == m {
        var k :| 0 <= k < |Moves| && Moves[k] == m;
        assert pairs[k].0 == m;
      }
    }
  }

  /** Looking a move name up and then indexing `Moves` gives the name back;
      with ActionTableIndex, the table is a bijection between the twelve names
      and 0..11. */
  lemma ActionTableRoundTrip(m: string)
    ensures m in ActionTable() <==> m in Moves
    ensures m in ActionTable() ==> 0 <= ActionTable()[m] < MoveCount && Moves[ActionTable()[m]] == m
  {
    ActionTableIndex(0);
    if m in ActionTable() {
      var k :| 0 <= k < |Moves| && Moves[k] == m;
      ActionTableIndex(k);
    }
  }

  /** Distinct names are given distinct indices. */
  lemma ActionTableInjective(m1: string, m2: string)
    requires m1 in ActionTable() && m2 in ActionTable()
    requires m1 != m2
    ensures ActionTable()[m1] != ActionTable()[m2]
  {
    ActionTableRoundTrip(m1);
    ActionTableRoundTrip(m2);
  }

  /** The two entries the agent uses. */
  lemma RunEntries()
    ensures "RIGHT_RUN" in ActionTable() && ActionTable()["RIGHT_RUN"] == 3
    ensures "RIGHT_JUMP_RUN" in ActionTable() && ActionTable()["RIGHT_JUMP_RUN"] == 4
  {
    ActionTableIndex(3);
    ActionTableIndex(4);
  }
}
