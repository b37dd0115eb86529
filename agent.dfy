/** A player as the game state sees it: it picks one of the offered
    positions, records fingerprints of the boards after its own moves,
    is fed a reward at the end of a game, and clears its trace. How it
    learns from the reward is not part of this model: `episodes` records
    each reward together with the trace it was fed against. */
module Agents {
  import opened Board

  class Agent {
    /** The fingerprints recorded during the current game. */
    var states: seq<seq<int>>
    /** Every `feedReward` so far: the trace at that moment and the reward. */
    var episodes: seq<(seq<seq<int>>, real)>

    constructor ()
      ensures states == [] && episodes == []
    {
      states := [];
      episodes := [];
    }

    /** Any one of the offered positions; which one is the agent's policy. */
    method ChooseAction(positions: seq<Pos>, current: seq<int>, symbol: int) returns (action: Pos)
      requires |positions| > 0
      ensures action in positions
    {
      assert positions[0] in positions;
      action :| action in positions;
    }

    method AddState(fingerprint: seq<int>)
      modifies this
      ensures states == old(states) + [fingerprint]
      ensures episodes == old(episodes)
    {
      states := states + [fingerprint];
    }

    method FeedReward(reward: real)
      modifies this
      ensures episodes == old(episodes) + [(old(states), reward)]
      ensures states == old(states)
    {
      episodes := episodes + [(states, reward)];
    }

    method Reset()
      modifies this
      ensures states == [] && episodes == old(episodes)
    {
      states := [];
    }
  }
}
