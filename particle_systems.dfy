/**
 * The particle systems (src/particles/systems.rs): emitters spawn batches on
 * their timer, particles age, move and shrink until their lifetime runs out,
 * and spent one-shot emitters are removed. Which entities spawn or despawn is
 * returned as a list; the random draws of each spawned particle, its
 * rotation and its colour are not modelled.
 */
module ParticleSystems {
  import opened Geometry
  import opened ParticleComponents

  /**
   * One emitter after `update_emitters`, with the number of particles it
   * spawned, given whether its spawn timer finished this frame.
   */
  function EmitterUpdated(e: ParticleEmitter, timerFinished: bool): (r: (ParticleEmitter, nat))
    ensures r.0.oneShot == e.oneShot && r.0.spawnRate == e.spawnRate &&
            r.0.particlesPerSpawn == e.particlesPerSpawn && r.0.particleConfig == e.particleConfig
  {
    if !e.active then (e, 0)
    else if e.oneShot && e.hasSpawned then (e.(active := false), 0)
    else if timerFinished then
      (e.(hasSpawned := true, active := !e.oneShot), e.particlesPerSpawn)
    else (e, 0)
  }

  /**
   * Inactive emitters are untouched; a spent one-shot emitter is switched
   * off without spawning; otherwise a batch of exactly `particles_per_spawn`
   * is spawned exactly when the timer finished, marking the emitter as having
   * spawned and switching a one-shot emitter off.
   */
  lemma EmitterUpdatedCases(e: ParticleEmitter, timerFinished: bool)
    ensures var (r, n) := EmitterUpdated(e, timerFinished);
            n == (if Fires(e, timerFinished) then e.particlesPerSpawn else 0) &&
            (!e.active ==> r == e && n == 0) &&
            (e.active && e.oneShot && e.hasSpawned ==> !r.active && n == 0 && r.hasSpawned) &&
            (e.active && !(e.oneShot && e.hasSpawned) ==>
               (timerFinished ==> n == e.particlesPerSpawn && r.hasSpawned && (r.active <==> !e.oneShot)) &&
               (!timerFinished ==> r == e && n == 0))
  {
  }

  /** Flags only move one way: an emitter is never switched back on, and never forgets it has spawned. */
  lemma EmitterFlagsMonotone(e: ParticleEmitter, timerFinished: bool)
    ensures var r := EmitterUpdated(e, timerFinished).0;
            (r.active ==> e.active) && (e.hasSpawned ==> r.hasSpawned)
  {
  }

  /** The emitter after a run of frames, and how many of those frames spawned a batch. */
  function RunEmitter(e: ParticleEmitter, timerFinished: seq<bool>): (r: (ParticleEmitter, nat))
    ensures r.1 <= |timerFinished|
    decreases |timerFinished|
  {
    if |timerFinished| == 0 then (e, 0)
    else
      var rest := RunEmitter(EmitterUpdated(e, timerFinished[0]).0, timerFinished[1..]);
      (rest.0, rest.1 + if Fires(e, timerFinished[0]) then 1 else 0)
  }

  /** The emitter spawns a batch this frame: it is active, not a spent one-shot, and its timer finished. */
  predicate Fires(e: ParticleEmitter, timerFinished: bool) {
    e.active && !(e.oneShot && e.hasSpawned) && timerFinished
  }

  /** An inactive emitter never spawns again. */
  lemma {:induction false} InactiveNeverSpawns(e: ParticleEmitter, timerFinished: seq<bool>)
    requires !e.active
    ensures RunEmitter(e, timerFinished) == (e, 0)
  {
    if |timerFinished| > 0 {
      InactiveNeverSpawns(e, timerFinished[1..]);
    }
  }

  /**
   * A one-shot emitter spawns at most one batch in its whole lifetime, none
   * once it has spawned, and is inactive from the frame it fires on.
   */
  lemma {:induction false} OneShotSpawnsOnce(e: ParticleEmitter, timerFinished: seq<bool>)
    requires e.oneShot
    ensures RunEmitter(e, timerFinished).1 <= 1
    ensures e.hasSpawned ==> RunEmitter(e, timerFinished).1 == 0
    ensures RunEmitter(e, timerFinished).1 == 1 ==> !RunEmitter(e, timerFinished).0.active
  {
    if |timerFinished| > 0 {
      var (e1, n) := EmitterUpdated(e, timerFinished[0]);
      if !e.active || e.hasSpawned || timerFinished[0] {
        assert !e1.active;
        InactiveNeverSpawns(e1, timerFinished[1..]);
      } else {
        assert e1 == e;
        OneShotSpawnsOnce(e, timerFinished[1..]);
      }
    }
  }

  /** An emitter spawned from `ParticleEmitter::new(...).one_shot()` spawns at most one batch. */
  lemma NewOneShotSpawnsOnce(spawnRate: real, count: nat, config: ParticleConfig, timerFinished: seq<bool>)
    ensures RunEmitter(OneShot(NewEmitter(spawnRate, count, config)), timerFinished).1 <= 1
  {
    OneShotSpawnsOnce(OneShot(NewEmitter(spawnRate, count, config)), timerFinished);
  }

  /** The particles a batch spawns: the emitter that owns them and the index of each within the batch. */
  function Batch(owner: nat, count: nat): (r: seq<(nat, nat)>)
    ensures |r| == count && forall j | 0 <= j < count :: r[j] == (owner, j)
  {
    seq(count, j requires 0 <= j < count => (owner, j))
  }

  /** The particles spawned by the first `n` emitters, in query order. */
  function SpawnedBy(emitters: seq<ParticleEmitter>, timerFinished: seq<bool>, n: nat): seq<(nat, nat)>
    requires n <= |emitters| <= |timerFinished|
  {
    if n == 0 then []
    else SpawnedBy(emitters, timerFinished, n - 1) + Batch(n - 1, EmitterUpdated(emitters[n - 1], timerFinished[n - 1]).1)
  }

  /**
   * Emitter `o` spawns particles `0 .. particles_per_spawn - 1` when it fires,
   * and nothing otherwise; every spawned particle is listed once.
   */
  lemma {:induction false} SpawnedByExactly(emitters: seq<ParticleEmitter>, timerFinished: seq<bool>, n: nat)
    requires n <= |emitters| <= |timerFinished|
    ensures forall o: nat, j: nat :: (o, j) in SpawnedBy(emitters, timerFinished, n) <==>
              o < n && Fires(emitters[o], timerFinished[o]) && j < emitters[o].particlesPerSpawn
    ensures |SpawnedBy(emitters, timerFinished, n)| ==
            TotalSpawned(emitters, timerFinished, n)
  {
    if n > 0 {
      SpawnedByExactly(emitters, timerFinished, n - 1);
      var b := Batch(n - 1, EmitterUpdated(emitters[n - 1], timerFinished[n - 1]).1);
      EmitterUpdatedCases(emitters[n - 1], timerFinished[n - 1]);
      forall o: nat, j: nat
        ensures (o, j) in b <==> o == n - 1 && Fires(emitters[o], timerFinished[o]) && j < emitters[o].particlesPerSpawn
      {
        if (o, j) in b {
          var k :| 0 <= k < |b| && b[k] == (o, j);
        }
      }
    }
  }

  /** The sum of the batch sizes of the first `n` emitters that fire. */
  function TotalSpawned(emitters: seq<ParticleEmitter>, timerFinished: seq<bool>, n: nat): nat
    requires n <= |emitters| <= |timerFinished|
  {
    if n == 0 then 0
    else TotalSpawned(emitters, timerFinished, n - 1) +
         (if Fires(emitters[n - 1], timerFinished[n - 1]) then emitters[n - 1].particlesPerSpawn else 0)
  }

  /**
   * `update_emitters`: each emitter in turn, spawning its batch before the
   * next one is looked at; `timerFinished[i]` is whether emitter `i`'s timer
   * finished when ticked this frame.
   */
  method UpdateEmitters(emitters: array<ParticleEmitter>, timerFinished: seq<bool>) returns (spawned: seq<(nat, nat)>)
    requires emitters.Length == |timerFinished|
    modifies emitters
    ensures forall i | 0 <= i < emitters.Length :: emitters[i] == EmitterUpdated(old(emitters[i]), timerFinished[i]).0
    ensures spawned == SpawnedBy(old(emitters[..]), timerFinished, emitters.Length)
  {
    ghost var initial := emitters[..];
    spawned := [];
    for i := 0 to emitters.Length
      invariant forall j | 0 <= j < i :: emitters[j] == EmitterUpdated(initial[j], timerFinished[j]).0
      invariant forall j | i <= j < emitters.Length :: emitters[j] == initial[j]
      invariant spawned == SpawnedBy(initial, timerFinished, i)
    {
      var emitter := emitters[i];
      if !emitter.active {
        continue;
      }
      if emitter.oneShot && emitter.hasSpawned {
        emitters[i] := emitter.(active := false);
        continue;
      }
      if timerFinished[i] {
        emitter := emitter.(hasSpawned := true);
        ghost var before := spawned;
        for k := 0 to emitter.particlesPerSpawn
          invariant spawned == before + Batch(i, k)
        {
          spawned := spawned + [(i, k)];
        }
        if emitter.oneShot {
          emitter := emitter.(active := false);
        }
        emitters[i] := emitter;
      }
    }
  }

  /** The emitters `cleanup_finished_emitters` despawns: spent one-shot emitters. */
  predicate Finished(e: ParticleEmitter) {
    e.oneShot && !e.active
  }

  /** The indices of the finished emitters among the first `n`, in order. */
  function FinishedAmong(emitters: seq<ParticleEmitter>, n: nat): seq<nat>
    requires n <= |emitters|
  {
    if n == 0 then []
    else FinishedAmong(emitters, n - 1) + (if Finished(emitters[n - 1]) then [n - 1] else [])
  }

  /** Exactly the finished emitters are listed, each once, in increasing order. */
  lemma {:induction false} FinishedAmongExactly(emitters: seq<ParticleEmitter>, n: nat)
    requires n <= |emitters|
    ensures forall i: nat :: i in FinishedAmong(emitters, n) <==> i < n && Finished(emitters[i])
    ensures forall a, b | 0 <= a < b < |FinishedAmong(emitters, n)| ::
              FinishedAmong(emitters, n)[a] < FinishedAmong(emitters, n)[b]
  {
    if n > 0 {
      FinishedAmongExactly(emitters, n - 1);
      var prev := FinishedAmong(emitters, n - 1);
      forall a | 0 <= a < |prev|
        ensures prev[a] < n - 1
      {
        assert prev[a] in prev;
      }
    }
  }

  /** `cleanup_finished_emitters`: the indices of the emitters despawned. */
  method CleanupFinishedEmitters(emitters: seq<ParticleEmitter>) returns (despawned: seq<nat>)
    ensures despawned == FinishedAmong(emitters, |emitters|)
  {
    despawned := [];
    for i := 0 to |emitters|
      invariant despawned == FinishedAmong(emitters, i)
    {
      if emitters[i].oneShot && !emitters[i].active {
        despawned := despawned + [i];
      }
    }
  }

  /** A one-shot emitter that fires is cleaned up in the same frame; a repeating one never is. */
  lemma FiredOneShotIsFinished(e: ParticleEmitter, timerFinished: bool)
    ensures e.oneShot && e.active && timerFinished ==> Finished(EmitterUpdated(e, timerFinished).0)
    ensures !e.oneShot ==> !Finished(EmitterUpdated(e, timerFinished).0)
  {
  }

  /** A one-shot emitter is switched off only after it has spawned. */
  predicate OffOnlyAfterSpawn(e: ParticleEmitter) {
    Finished(e) ==> e.hasSpawned
  }

  /** Every run of frames keeps `OffOnlyAfterSpawn`. */
  lemma {:induction false} RunKeepsOffOnlyAfterSpawn(e: ParticleEmitter, timerFinished: seq<bool>)
    requires OffOnlyAfterSpawn(e)
    ensures OffOnlyAfterSpawn(RunEmitter(e, timerFinished).0)
    decreases |timerFinished|
  {
    if |timerFinished| > 0 {
      EmitterUpdatedCases(e, timerFinished[0]);
      RunKeepsOffOnlyAfterSpawn(EmitterUpdated(e, timerFinished[0]).0, timerFinished[1..]);
    }
  }

  /**
   * An emitter built by `ParticleEmitter::new`, one-shot or not, that a run
   * of frames leaves finished has spawned its batch: the emitters the cleanup
   * despawns are spent ones, although the cleanup itself tests only the two flags.
   */
  lemma FinishedHasSpawned(spawnRate: real, count: nat, config: ParticleConfig, oneShot: bool, timerFinished: seq<bool>)
    ensures var e0 := if oneShot then OneShot(NewEmitter(spawnRate, count, config)) else NewEmitter(spawnRate, count, config);
            var e := RunEmitter(e0, timerFinished).0;
            Finished(e) ==> e.hasSpawned && oneShot
  {
    var e0 := if oneShot then OneShot(NewEmitter(spawnRate, count, config)) else NewEmitter(spawnRate, count, config);
    RunKeepsOffOnlyAfterSpawn(e0, timerFinished);
    RunKeepsOneShot(e0, timerFinished);
  }

  /** A run of frames never changes whether an emitter is one-shot. */
  lemma {:induction false} RunKeepsOneShot(e: ParticleEmitter, timerFinished: seq<bool>)
    ensures RunEmitter(e, timerFinished).0.oneShot == e.oneShot
    decreases |timerFinished|
  {
    if |timerFinished| > 0 {
      RunKeepsOneShot(EmitterUpdated(e, timerFinished[0]).0, timerFinished[1..]);
    }
  }

  /** A particle entity's components that `update_particles` reads and writes. */
  datatype ParticleBody = ParticleBody(particle: Particle, translation: Vec3, scale: real)

  /**
   * One particle after `update_particles` over a frame of `dt`, with whether
   * it is despawned: its lifetime drops by `dt`; once that is not positive it
   * is despawned and nothing else changes, otherwise it accelerates, moves and
   * takes the scale of its curve.
   */
  function ParticleUpdated(b: ParticleBody, dt: real): (r: (ParticleBody, bool))
    requires dt >= 0.0 && Wellformed(b.particle)
  {
    var p := b.particle.(lifetime := b.particle.lifetime - dt);
    if p.lifetime <= 0.0 then (b.(particle := p), true)
    else
      var velocity := Add3(p.velocity, Scale3(p.acceleration, dt));
      var moved := p.(velocity := velocity);
      (ParticleBody(moved, Add3(b.translation, Scale3(velocity, dt)), CurrentScale(moved)), false)
  }

  /**
   * A particle is despawned exactly when its lifetime runs out; a despawned
   * particle is not moved or rescaled; a surviving one stays well formed,
   * keeps its maximum lifetime and curve, and its scale lies on the curve.
   */
  lemma ParticleUpdatedSpec(b: ParticleBody, dt: real)
    requires dt >= 0.0 && Wellformed(b.particle)
    ensures var (r, despawned) := ParticleUpdated(b, dt);
            r.particle.lifetime == b.particle.lifetime - dt && r.particle.maxLifetime == b.particle.maxLifetime &&
            (despawned <==> b.particle.lifetime - dt <= 0.0) &&
            (despawned ==> r.translation == b.translation && r.scale == b.scale) &&
            (!despawned ==> Wellformed(r.particle) && Alive(r.particle) &&
                            r.particle.startScale == b.particle.startScale && r.particle.endScale == b.particle.endScale &&
                            (r.particle.startScale <= r.particle.endScale ==>
                               r.particle.startScale <= r.scale <= r.particle.endScale) &&
                            (r.particle.endScale <= r.particle.startScale ==>
                               r.particle.endScale <= r.scale <= r.particle.startScale))
  {
    var (r, despawned) := ParticleUpdated(b, dt);
    if !despawned {
      ProgressBounds(r.particle);
    }
  }

  /** The body of the `update_particles` loop for one particle. */
  method UpdateParticle(b: ParticleBody, dt: real) returns (r: ParticleBody, despawned: bool)
    requires dt >= 0.0 && Wellformed(b.particle)
    ensures (r, despawned) == ParticleUpdated(b, dt)
  {
    var particle := b.particle;
    particle := particle.(lifetime := particle.lifetime - dt);
    if particle.lifetime <= 0.0 {
      return b.(particle := particle), true;
    }
    var acceleration := particle.acceleration;
    particle := particle.(velocity := Add3(particle.velocity, Scale3(acceleration, dt)));
    var translation := Add3(b.translation, Scale3(particle.velocity, dt));
    var currentScale := CurrentScale(particle);
    r, despawned := ParticleBody(particle, translation, currentScale), false;
  }

  /** `update_particles`: every particle for a frame of `dt`; returns the indices despawned, in order. */
  method UpdateParticles(bodies: array<ParticleBody>, dt: real) returns (despawned: seq<nat>)
    requires dt >= 0.0
    requires forall i | 0 <= i < bodies.Length :: Wellformed(bodies[i].particle)
    modifies bodies
    ensures forall i | 0 <= i < bodies.Length :: bodies[i] == ParticleUpdated(old(bodies[i]), dt).0
    ensures forall i :: i in despawned <==> 0 <= i < bodies.Length && ParticleUpdated(old(bodies[i]), dt).1
    ensures forall a, c | 0 <= a < c < |despawned| :: despawned[a] < despawned[c]
  {
    ghost var initial := bodies[..];
    despawned := [];
    for i := 0 to bodies.Length
      invariant forall j | 0 <= j < i :: bodies[j] == ParticleUpdated(initial[j], dt).0
      invariant forall j | i <= j < bodies.Length :: bodies[j] == initial[j]
      invariant forall j :: j in despawned <==> 0 <= j < i && ParticleUpdated(initial[j], dt).1
      invariant forall a, c | 0 <= a < c < |despawned| :: despawned[a] < despawned[c] < i
      invariant forall a | 0 <= a < |despawned| :: despawned[a] < i
    {
      var r, gone := UpdateParticle(bodies[i], dt);
      bodies[i] := r;
      if gone {
        despawned := despawned + [i];
      }
    }
  }
}
