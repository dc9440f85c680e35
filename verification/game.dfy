/** The integer bookkeeping of the game loop: spawn_entity's slot search over the entity
    table, change_game_state's resets, and perform_player_death's score and high-score
    update. Floating-point fields (timers, positions, the time scale) are not modelled. */
module Game {
  import Scores

  /** COUNTOF(entities). */
  const EntityCount: nat := 1024

  /** The number of entries in game.high_score. */
  const HighScoreCount: nat := 32

  /** The STATE_* enumeration. */
  const StateTitleScreen: int := 0
  const StateTutorial: int := 1
  const StatePlaying: int := 2
  const StatePlayerDied: int := 3
  const StateLeaderboard: int := 4

  /** ENTITY_NONE: a free slot. */
  const EntityNone: int := 0

  /** The integer fields of an Entity that these routines touch. */
  datatype Entity = Entity(kind: int, beingDestroyed: int)

  /** The integer fields of struct Game that these routines touch. */
  datatype Game = Game(state: int, score: int, additionalScore: int, combo: int,
                       hittingWall: int, highScore: seq<int>)

  /** spawn_entity: the lowest free slot among 1 .. 1023 is claimed, or slot 0 when every
      one of them is taken; the claimed slot gets the type and a cleared
      being_destroyed, and no other slot changes. */
  method SpawnEntity(entities: seq<Entity>, kind: int) returns (r: seq<Entity>, id: nat)
    requires |entities| == EntityCount
    ensures id < EntityCount
    ensures id == 0 <==> forall i :: 1 <= i < EntityCount ==> entities[i].kind != EntityNone
    ensures id != 0 ==> entities[id].kind == EntityNone
    ensures forall i :: 1 <= i < id ==> entities[i].kind != EntityNone
    ensures |r| == EntityCount && r[id] == Entity(kind, 0)
    ensures forall i :: 0 <= i < EntityCount && i != id ==> r[i] == entities[i]
  {
    id := 0;
    var i := 1;
    while i < |entities|
      invariant 1 <= i <= |entities| && id == 0
      invariant forall j :: 1 <= j < i ==> entities[j].kind != EntityNone
    {
      if entities[i].kind == EntityNone {
        id := i;
        break;
      }
      i := i + 1;
    }
    r := entities[id := entities[id].(kind := kind, beingDestroyed := 0)];
  }

  /** Every entity's type set to ENTITY_NONE; being_destroyed is left as it was. */
  function ClearEntities(entities: seq<Entity>): (r: seq<Entity>)
    ensures |r| == |entities|
    ensures forall i :: 0 <= i < |r| ==> r[i] == Entity(EntityNone, entities[i].beingDestroyed)
  {
    seq(|entities|, i requires 0 <= i < |entities| => entities[i].(kind := EntityNone))
  }

  /** change_game_state: the new state is recorded and hitting_wall cleared to -1; entering
      STATE_PLAYING also frees every entity slot and zeroes score, combo and
      additional_score. The high-score table is never touched. */
  function ChangeGameState(g: Game, entities: seq<Entity>, state: int): (r: (Game, seq<Entity>))
    ensures r.0.state == state && r.0.hittingWall == -1 && r.0.highScore == g.highScore
    ensures state == StatePlaying ==> r.0.score == 0 && r.0.combo == 0 && r.0.additionalScore == 0
    ensures state == StatePlaying ==> |r.1| == |entities| && forall i :: 0 <= i < |r.1| ==> r.1[i].kind == EntityNone
    ensures state == StatePlaying ==> forall i :: 0 <= i < |r.1| ==> r.1[i].beingDestroyed == entities[i].beingDestroyed
    ensures state == StatePlaying ==> r.0 == g.(state := state, hittingWall := -1, score := 0, combo := 0, additionalScore := 0)
    ensures state != StatePlaying ==> r.1 == entities && r.0 == g.(state := state, hittingWall := -1)
  {
    var g1 := g.(state := state, hittingWall := -1);
    if state == StatePlaying then
      (g1.(score := 0, combo := 0, additionalScore := 0), ClearEntities(entities))
    else
      (g1, entities)
  }

  /** perform_player_death: the round's bonus (calc_additional_score, a product with a
      floating-point multiplier, taken here as an integer input) is added to the score,
      the combo is reset, the high-score table is updated and the game moves to
      STATE_PLAYER_DIED. The table stays in non-increasing order and keeps its size. */
  function PerformPlayerDeath(g: Game, entities: seq<Entity>, bonus: int): (r: (Game, seq<Entity>))
    ensures r.0.state == StatePlayerDied && r.0.hittingWall == -1 && r.1 == entities
    ensures r.0.score == g.score + bonus && r.0.combo == 0 && r.0.additionalScore == 0
    ensures |r.0.highScore| == |g.highScore| && Scores.Descending(r.0.highScore)
    ensures multiset(r.0.highScore) == multiset(Scores.ReplaceLowest(g.highScore, g.score + bonus))
  {
    var score := g.score + bonus;
    var table := Scores.UpdateHighScores(g.highScore, score);
    var r := ChangeGameState(g.(score := score, additionalScore := 0, combo := 0, highScore := table),
                             entities, StatePlayerDied);
    assert r.0.highScore == table;
    r
  }

  /** Starting a new round after a death keeps the high-score table the death produced,
      and the score that went into it is gone from the game state. */
  lemma DeathThenReplayKeepsTable(g: Game, entities: seq<Entity>, bonus: int)
    ensures var d := PerformPlayerDeath(g, entities, bonus);
            var p := ChangeGameState(d.0, d.1, StatePlaying);
            p.0.highScore == d.0.highScore && p.0.score == 0 && p.0.state == StatePlaying
  {
  }

  /** A replayed table is the unique non-increasing arrangement: whatever order qsort
      visits equal keys in, the table after a death is determined by the old table and
      the score. */
  lemma DeathTableDetermined(g: Game, entities: seq<Entity>, bonus: int, sorted: seq<int>)
    requires Scores.Descending(sorted)
    requires multiset(sorted) == multiset(Scores.ReplaceLowest(g.highScore, g.score + bonus))
    ensures PerformPlayerDeath(g, entities, bonus).0.highScore == sorted
  {
    var d := PerformPlayerDeath(g, entities, bonus);
    Scores.DescendingUnique(d.0.highScore, sorted);
  }

  /** Spawning twice into a freed table hands out slots 1 and 2; slot 0 is used only
      when the table is full. */
  method SpawnTwice(entities: seq<Entity>, kind: int) returns (first: nat, second: nat)
    requires |entities| == EntityCount && kind != EntityNone
    ensures first == 1 && second == 2
  {
    var cleared := ClearEntities(entities);
    var e1, e2;
    e1, first := SpawnEntity(cleared, kind);
    assert cleared[1].kind == EntityNone;
    e2, second := SpawnEntity(e1, kind);
    assert e1[2].kind == EntityNone;
  }
}
