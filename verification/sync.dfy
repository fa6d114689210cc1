/**
 * The lock-step coordinator: a click is judged on a speculative copy of the
 * committed game, published to the shared space-state store, and input stays
 * locked until a change notification for the game's key brings a state back,
 * which is then adopted whoever published it.
 */
module Sync {
  import opened Options
  import opened Board
  import opened Rules
  import opened Engine

  /** One property write to the shared store. */
  datatype Publication = Publication(key: string, state: Payload)

  /**
   * The store's readable snapshot: its public and protected property maps
   * (a missing map reads as empty).
   */
  datatype SpaceState = SpaceState(public: map<string, string>, protected: map<string, string>)

  const KeyPrefix: string := "connect4_game_"

  /** The property key that namespaces one game instance. */
  function KeyFor(instance: string): (key: string)
    ensures |key| == |KeyPrefix| + |instance|
    ensures key[..|KeyPrefix|] == KeyPrefix && key[|KeyPrefix|..] == instance
  {
    KeyPrefix + instance
  }

  /** Different instances never share a key. */
  lemma KeyForInjective(a: string, b: string)
    requires KeyFor(a) == KeyFor(b)
    ensures a == b
  {
  }

  /**
   * `(s.public && s.public[key]) || (s.protected && s.protected[key])`: the
   * first non-empty string of the two maps, public first; an empty string is
   * falsy and reads as absent.
   */
  function ReadProperty(space: SpaceState, key: string): (v: Option<string>)
    ensures v.Some? ==> v.value != ""
    ensures v.None? <==> !(key in space.public && space.public[key] != "") &&
                         !(key in space.protected && space.protected[key] != "")
    ensures v.Some? ==> (key in space.public && v.value == space.public[key]) ||
                        (key in space.protected && v.value == space.protected[key])
    ensures key in space.public && space.public[key] != "" ==> v == Some(space.public[key])
  {
    if key in space.public && space.public[key] != "" then Some(space.public[key])
    else if key in space.protected && space.protected[key] != "" then Some(space.protected[key])
    else None
  }

  class Coordinator {
    /** `connect4_game_<instance>`. */
    const key: string
    var game: Connect4Game
    /** The input lock. */
    var isSyncing: bool
    /** Every property write made so far, oldest first. */
    var outbox: seq<Publication>

    ghost predicate Valid()
      reads this, game, game.board
    {
      game.Valid()
    }

    constructor (instance: string)
      ensures Valid() && fresh(game)
      ensures key == KeyFor(instance) && !isSyncing && outbox == []
      ensures game.Value() == Initial()
    {
      key := KeyFor(instance);
      var g := new Connect4Game();
      game := g;
      isSyncing := false;
      outbox := [];
    }

    /**
     * `syncState(newState)`: writes the given state, or the committed one
     * when none is given, under this game's key.
     */
    method SyncState(newState: Option<Payload>)
      requires Valid()
      modifies this`outbox
      ensures Valid()
      ensures outbox == old(outbox) + [Publication(key, match newState case Some(s) => s case None => StateOf(game.Value()))]
    {
      var data := match newState case Some(s) => s case None => game.GetState();
      outbox := outbox + [Publication(key, data)];
    }

    /**
     * `handleColumnClick(col)`: ignored once there is a winner or while the
     * lock is held; otherwise the move is simulated on the committed game and,
     * if accepted, the lock is taken and the candidate published. The
     * committed game is not changed.
     */
    method HandleColumnClick(col: int)
      requires Valid()
      modifies this`isSyncing, this`outbox
      ensures Valid()
      ensures old(game.winner.IsSet()) || old(isSyncing) || Drop(game.Value(), col).None? ==>
                isSyncing == old(isSyncing) && outbox == old(outbox)
      ensures !old(game.winner.IsSet()) && !old(isSyncing) && Drop(game.Value(), col).Some? ==>
                isSyncing && outbox == old(outbox) + [Publication(key, Drop(game.Value(), col).value)]
    {
      if game.winner.IsSet() { return; }
      if isSyncing { return; }

      var nextState := game.SimulateDrop(col);
      if nextState.Some? {
        isSyncing := true;
        SyncState(nextState);
      }
    }

    /**
     * The reset button: the committed game is reset at once, without regard
     * to the lock, and then published.
     */
    method ResetClicked()
      requires Valid()
      modifies this`outbox, game
      ensures Valid() && fresh(game.board)
      ensures game.Value() == Initial() && isSyncing == old(isSyncing)
      ensures outbox == old(outbox) + [Publication(key, StateOf(Initial()))]
    {
      game.Reset();
      SyncState(None);
    }

    /**
     * The space-state-changed listener: a change list naming this game's key,
     * with a stored value that parses, is loaded into the committed game and
     * releases the lock. Anything else (another key, no value, a parse
     * failure) changes nothing.
     */
    method OnSpaceStateChanged(changes: seq<string>, space: SpaceState, parse: string -> Option<Payload>)
      requires Valid()
      modifies this`isSyncing, game
      ensures Valid() && outbox == old(outbox)
      ensures var val := ReadProperty(space, key);
              if key in changes && val.Some? && parse(val.value).Some? then
                game.Value() == Load(old(game.Value()), parse(val.value).value) && !isSyncing
              else
                game.Value() == old(game.Value()) && isSyncing == old(isSyncing)
    {
      if key in changes {
        var val := ReadProperty(space, key);
        if val.Some? {
          var data := parse(val.value);
          if data.Some? {
            game.LoadState(data.value);
            isSyncing := false;
          }
        }
      }
    }

    /**
     * `checkForExistingState`: at start-up, a stored value for this game's key
     * that parses is loaded; the lock is never touched.
     */
    method CheckForExistingState(space: SpaceState, parse: string -> Option<Payload>)
      requires Valid()
      modifies game
      ensures Valid() && outbox == old(outbox) && isSyncing == old(isSyncing)
      ensures var val := ReadProperty(space, key);
              if val.Some? && parse(val.value).Some? then
                game.Value() == Load(old(game.Value()), parse(val.value).value)
              else
                game.Value() == old(game.Value())
    {
      var val := ReadProperty(space, key);
      if val.Some? {
        var data := parse(val.value);
        if data.Some? {
          game.LoadState(data.value);
        }
      }
    }
  }
}
