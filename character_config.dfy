/** A character's configuration as loaded from the characters list (src/characters/config.rs). */
module CharacterConfig {
  import opened Wrappers

  datatype AnimationType = Walk | Run | Jump

  /** Every animation type, in declaration order. */
  const ANIMATION_TYPES: seq<AnimationType> := [Walk, Run, Jump]

  datatype AnimationDefinition = AnimationDefinition(startRow: nat, frameCount: nat, frameTime: real, directional: bool)

  datatype CharacterEntry = CharacterEntry(
    name: string,
    maxHealth: real,
    baseMoveSpeed: real,
    runSpeedMultiplier: real,
    texturePath: string,
    tileSize: nat,
    atlasColumns: nat,
    animations: map<AnimationType, AnimationDefinition>)

  lemma AllAnimationTypes(t: AnimationType)
    ensures t in ANIMATION_TYPES
  {
  }

  /** The last sheet row one definition occupies: four facing rows when directional, one otherwise. */
  function LastRow(def: AnimationDefinition): (row: nat)
    ensures row >= def.startRow
    ensures def.directional ==> row == def.startRow + 3
  {
    if def.directional then def.startRow + 3 else def.startRow
  }

  /** The `.max()` of `LastRow` over the definitions of the listed types: None when none is defined. */
  function MaxLastRow(types: seq<AnimationType>, anims: map<AnimationType, AnimationDefinition>): (r: Option<nat>)
    ensures r.None? <==> forall j | 0 <= j < |types| :: types[j] !in anims
    ensures forall j | 0 <= j < |types| && types[j] in anims :: r.Some? && LastRow(anims[types[j]]) <= r.value
    ensures r.Some? ==> exists j | 0 <= j < |types| :: types[j] in anims && r.value == LastRow(anims[types[j]])
  {
    if |types| == 0 then None
    else
      var rest := MaxLastRow(types[1..], anims);
      assert forall j | 1 <= j < |types| :: types[j] == types[1..][j - 1];
      if types[0] !in anims then rest
      else
        var here := LastRow(anims[types[0]]);
        if rest.None? || rest.value < here then Some(here)
        else
          var j :| 0 <= j < |types[1..]| && types[1..][j] in anims && rest.value == LastRow(anims[types[1..][j]]);
          assert types[j + 1] == types[1..][j];
          rest
  }

  /** Over the full type list, the maximum is defined exactly when some animation is, and bounds each one. */
  lemma MaxLastRowOverAllTypes(anims: map<AnimationType, AnimationDefinition>)
    ensures var m := MaxLastRow(ANIMATION_TYPES, anims);
            (m.None? <==> |anims| == 0) &&
            (forall t | t in anims :: m.Some? && LastRow(anims[t]) <= m.value)
  {
    var m := MaxLastRow(ANIMATION_TYPES, anims);
    forall t | t in anims
      ensures m.Some? && LastRow(anims[t]) <= m.value
    {
      AllAnimationTypes(t);
      var j :| 0 <= j < |ANIMATION_TYPES| && ANIMATION_TYPES[j] == t;
    }
    if |anims| > 0 {
      var t :| t in anims;
      AllAnimationTypes(t);
      var j :| 0 <= j < |ANIMATION_TYPES| && ANIMATION_TYPES[j] == t;
    }
  }

  /** `calculate_max_animation_row`: the largest row any animation reaches, 0 with no animations. */
  function CalculateMaxAnimationRow(e: CharacterEntry): (r: nat)
    ensures |e.animations| == 0 ==> r == 0
    ensures forall t | t in e.animations :: LastRow(e.animations[t]) <= r
    ensures |e.animations| > 0 ==> exists t | t in e.animations :: r == LastRow(e.animations[t])
  {
    MaxLastRowOverAllTypes(e.animations);
    match MaxLastRow(ANIMATION_TYPES, e.animations)
    case None => 0
    case Some(row) => row
  }
}
