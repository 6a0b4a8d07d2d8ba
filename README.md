# Falling particles: a verified model of the game engine

The game is a WinForms toy. Coloured particles fall from the top of the
screen and a cart follows the mouse to catch them. Red particles cost a life
unless the player is invulnerable. The other colours carry effects:

- double or half cart width;
- a two-second freeze;
- five bonus points;
- five seconds of invulnerability;
- a plain point.

A moving cart puffs steam. Caught particles leave explosions that fade over
ten ticks.

This project models the engine (`Game`, `Cart`, `Particle`, `Explosion`) in
Dafny and proves what it guarantees. The modules are:

- `DotNet` (dotnet.dfy) holds the runtime pieces the engine relies on:
  - `Color`, `Point` and `Rectangle` with `IntersectsWith`;
  - C#'s truncating `/ 2` (`Half`);
  - the first-occurrence removal of `List<T>.Remove` (`RemoveFirst`);
  - `Select`, the order-keeping filter that a walk over a `ToArray()` snapshot with `Remove` leaves behind.
- `Effects` (effects.dfy) is the collision state machine on values. A `Session` holds the game's scalar fields plus the two cart fields the effect slot drives (width and frozen). The functions `ResetEffect`, `Invulnerable`, `ApplyEffect`, `Collide` and `Expire` say how a session moves. `Coupled` is the effect/cart coupling.
- `Particles` (particle.dfy) is the `Particle` class: its fields, `IsDangerous`, and the five-slot trail ring buffer and its `Update`.
- `Carts` (cart.dfy) is the `Cart` class: pointer-driven `Update` (no clamping), `UpdateWheels`, `ResetSize`, `Bounds`.
- `Spawning` (spawning.dfy) holds the spawn counter (`NextCounter`) and the colour/effect draw (`Draw`), with the counting proof that the 100 draws split 15/15/15/15/15/15/10.
- `Games` (game.dfy) holds the `Explosion` class and the `Game` class.
  - The `Game` class's methods change its fields in place, and its lists are `seq` fields of object references.
  - Its object invariant `Valid` says:
    - the effect slot and the cart agree;
    - no list holds an object twice;
    - falling and steam particles are disjoint;
    - no falling particle carries Steam;
    - steam has size left;
    - explosions have 1 to 10 ticks left.
  - A second invariant, `Counting`, says the spawn counter is never negative. The constructor establishes it, and `SpawnParticles` and `Update` keep it.
  - The falling pass is proved against `FallAll`, a fold of the per-particle step `FallOne` over a snapshot of the particles' values.
  - The steam pass and the explosion pass are proved against `Rise` and `Tick` of every entry, with membership of the survivors.

How the model stands in for things it cannot run:

- The clock is the argument `now`, in integer milliseconds: `AddSeconds(5)` is `+ 5000`.
- Every number the engine would draw from `System.Random` is a caller-supplied argument with the draw's range as a precondition: the `Draws` datatype for one `Update`.
- The `OnHit` event is the counter `Hits`, the number of times it fired.
- `Cart.WheelRotation` (a float accumulating half of each movement) is kept as the integer sum `Travel` of all movements; `WheelRotation()` is `Travel / 2` as a real.
- The steam test `Math.Abs(LastMovement) > 0.1f` is exact for the integer movements the cart makes, so it is `LastMovement != 0`.
- `(int)Math.Max(0, Size - 0.1f)` on a steam particle is "one less while positive, never below 0".
- An object initializer `new Particle { ... }` is the constructor `Particle.Init`, which sets the listed fields.

Where the code and its intended design differ, the model follows the code:

- `Cart.Update` never clamps X: `screenWidth` is unused.
- `ApplyParticleEffect` clears the current effect first, whatever the new effect is. This includes None, BonusPoints and Invulnerability. Catching a bonus or an invulnerability particle therefore ends a running DoubleSize, HalfSize or Freeze.
- A red particle that does not kill still scores +1 through its effect None.
- The falling pass goes on after a lethal hit, so one tick can take several lives and Lives can go below 0. No `Lives >= 0` is claimed.
- Game.cs does not compile as written: an outer `class Game` wraps the enum and an inner `class Game`, and the methods from line 137 on sit outside it. The model treats lines 21-304 as one class and `ParticleEffect` as a top-level enum, which is how Particle.cs uses it.

## Model

| member | source | states |
|---|---|---|
| `DotNet.IntersectsWithSharedPoint` | laba6/Game.cs:143-145 | `Rectangle.IntersectsWith` on two non-empty boxes holds exactly when the boxes share a point |
| `DotNet.Half` | laba6/Cart.cs:33 | C#'s `n / 2` on an int: rounds toward zero, so `2*h` is within one of `n` and on the same side of 0 as `n` |
| `DotNet.RemoveFirst` | laba6/Game.cs:152 | `List.Remove`: an absent element leaves the list as it is; a present one makes it one shorter, and nothing new appears |
| `DotNet.RemoveAfterPrefix` | laba6/Game.cs:152 | removing an element whose first occurrence follows a prefix splices out exactly that occurrence |
| `DotNet.SelectMember` | laba6/Game.cs:139-154 | after a walk over a snapshot, exactly the entries whose keep-flag is set are still in the list |
| `DotNet.SelectDistinct` | laba6/Game.cs:139-154 | filtering a list with no repeated objects leaves a list with no repeated objects |
| `DotNet.WalkStep` | laba6/Game.cs:150-153 | one loop step over a `ToArray()` snapshot: removing the current entry when it is not kept turns "kept walked entries, then the rest" into the same shape one entry further on |
| `Effects.ResetEffect` | laba6/Game.cs:274-278 | clearing the slot leaves None, base width and not frozen (coupled), and nothing else changes |
| `Effects.Invulnerable` | laba6/Game.cs:238-242 | invulnerability is set with deadline `now + ms`, and nothing else changes |
| `Effects.ApplyEffect` | laba6/Game.cs:200-236 | the slot is cleared first; timed effects take the slot with their deadlines (5000 ms for DoubleSize/HalfSize, 2000 ms for Freeze), BonusPoints/Invulnerability/None leave it None; the score gains +5 for BonusPoints, +1 for None and 0 otherwise; Invulnerability sets a 5000 ms deadline; lives, game-over and hits are untouched; the cart stays coupled for any non-Steam effect |
| `Effects.Collide` | laba6/Game.cs:157-175 | a life is lost and one hit fires exactly when the particle is dangerous and the player is not invulnerable; game-over becomes true exactly when that leaves no lives, and then nothing else changes (no effect applied); in every other case, including a red particle that costs a life but does not kill, the particle's effect is applied exactly as `ApplyEffect` says (so a red particle still scores +1); the score never drops, and coupling is kept for every non-Steam effect |
| `Effects.Expire` | laba6/Game.cs:63-74 | the timed effect is cleared iff it is set and its deadline has come; invulnerability is cleared iff it is on and its own deadline has come, independently; score, lives, game-over, hits and deadlines are untouched; coupling is kept |
| `Particles.NextSlot` | laba6/Particle.cs:24 | one trail write moves the index to the next of the five slots, wrapping from the last back to 0 |
| `Particles.SlotAfterWraps` | laba6/Particle.cs:24 | after `n` trail writes the index is `(i + n) mod 5` |
| `Particles.FiveWritesReturn` | laba6/Particle.cs:18-24 | five trail writes bring the index back to where it started |
| `Particles.Particle.constructor` | laba6/Particle.cs:9-19 | a new particle has size 10, is not collected, every other field is at C#'s default, and the trail index is 0 |
| `Particles.Particle.Init` | laba6/Game.cs:248-256 | an object initializer: the new particle has exactly the given fields and a fresh five-slot trail |
| `Particles.Particle.IsDangerous` | laba6/Particle.cs:16 | a particle is dangerous exactly when it is red |
| `Particles.Particle.Update` | laba6/Particle.cs:21-25 | the centre `(X + Size/2, Y + Size/2)` is written into the current slot, the other four slots are unchanged, the index advances by one mod 5, and no other field changes |
| `Carts.Cart.Bounds` | laba6/Cart.cs:19 | the box at (X, Y) with the cart's width and height |
| `Carts.Cart.constructor` | laba6/Cart.cs:9-24 | a new cart has Width == BaseWidth == 60, height 30, is not frozen and has not moved |
| `Carts.Cart.Update` | laba6/Cart.cs:28-38 | unfrozen, X becomes `mouseX - Width/2` with no clamping; frozen, X stays and LastMovement is 0; LastMovement is always the change of X; the wheels advance by half of it; Width, Y, Height and IsFrozen never change |
| `Carts.Cart.WheelRotation` | laba6/Cart.cs:16 | the wheel rotation is exactly half of the cart's total travel (0 for a new cart), so it is non-negative exactly while the travel is non-negative |
| `Carts.Cart.UpdateWheels` | laba6/Cart.cs:40-44 | the accumulated travel grows by the last movement, so the wheel rotation grows by `LastMovement * 0.5` |
| `Carts.Cart.ResetSize` | laba6/Cart.cs:121-125 | base width, not frozen; X, Y, LastMovement and the wheels untouched |
| `Spawning.Draw` | laba6/Game.cs:96-131 | the draw gives one of the seven outcomes and never Steam; the colour is red iff the number is below 15, and red carries no effect |
| `Spawning.CountSplit` | laba6/Game.cs:96-131 | counting draws over a range splits at any inner point |
| `Spawning.CountBand` | laba6/Game.cs:96-131 | over a band of draws that all give one outcome, that outcome is counted once per draw and every other outcome never |
| `Spawning.BandBelow` | laba6/Game.cs:96-131 | adding one band below a counted range adds that band's share |
| `Spawning.UpperBands` | laba6/Game.cs:112-131 | draws 45 to 99 give yellow, blue and pink 15 each and turquoise 10 |
| `Spawning.BandSum` | laba6/Game.cs:96-131 | the count of an outcome over all 100 draws is the sum of its shares of the seven bands |
| `Spawning.DrawShares` | laba6/Game.cs:96-131 | of the 100 equally likely draws, red, purple, green, yellow, blue and pink get exactly 15 each, turquoise exactly 10, and nothing else ever occurs |
| `Spawning.NextCounter` | laba6/Game.cs:78-82 | a tick that reaches the threshold `100 - SpawnRate` resets the counter to 0; any other tick increments it and stays below the threshold; from a non-negative counter at a rate of at most 99 the result is in [0, threshold) |
| `Spawning.QuietUntilThreshold` | laba6/Game.cs:76-84 | from a reset counter at a rate in [1, 99], the counter counts the ticks, and only the tick that reaches the threshold spawns |
| `Spawning.CounterAfterAdds` | laba6/Game.cs:76-84 | running n ticks and then m more is running n + m ticks |
| `Spawning.SpawnPeriod` | laba6/Game.cs:76-84 | at a rate in [1, 99], from a reset counter, the counter repeats with period `100 - SpawnRate` |
| `Spawning.CounterClosedForm` | laba6/Game.cs:76-84 | at a rate in [1, 99], after `n` ticks from a reset counter the counter is `n mod (100 - SpawnRate)`, and the next tick spawns exactly when that is `99 - SpawnRate`: one spawn in every `100 - SpawnRate` ticks |
| `Games.BlastOf` | laba6/Game.cs:177-186 | the explosion a caught particle leaves: at its centre, with its size as radius, its colour, and 10 ticks to live |
| `Games.FallOne` | laba6/Game.cs:141-148 | the definition of one iteration of the falling loop on values: the particle falls by its speed; if its box then meets the cart at the session's current width it is collected, leaves one blast and the session moves as `Collide`; otherwise nothing else moves (its guarantees are stated by `FallOneStep`) |
| `Games.FallOneStep` | laba6/Game.cs:141-148 | one iteration keeps the earlier views and adds one; the particle fell by its speed and stays collected if it was; the score never drops, each life lost fires one hit, game-over is never undone, coupling survives a particle without Steam; at most one explosion is added, with ten ticks |
| `Games.FallAll` | laba6/Game.cs:139-154 | the pass gives one new view per particle and at most one explosion per particle |
| `Games.FallAllViews` | laba6/Game.cs:141-148 | in the falling pass each particle only moves down by its speed and may become collected, never uncollected |
| `Games.FallAllSession` | laba6/Game.cs:139-175 | over a whole falling pass the score never drops, every life lost fires exactly one hit, and game-over is never undone |
| `Games.FallAllCoupled` | laba6/Game.cs:139-236 | a falling pass over particles none of which carries Steam keeps the effect slot and the cart coupled |
| `Games.FallAllBlasts` | laba6/Game.cs:177-185 | every explosion the falling pass leaves starts with 10 ticks |
| `Games.FallAllStep` | laba6/Game.cs:139-154 | walking one more particle of the snapshot is one more step of the pass |
| `Games.FallAllNext` | laba6/Game.cs:139-154 | the pass over the walked prefix extended by one step is the pass over the longer prefix, and its views are a prefix of the whole pass's |
| `Games.FallAllPrefix` | laba6/Game.cs:139-154 | the pass over a prefix of the snapshot gives a prefix of the whole pass's views |
| `Games.Rise` | laba6/Game.cs:264-265 | a steam tick moves the particle by its speed and shrinks it by one while it has size, never below 0; nothing else changes |
| `Games.Tick` | laba6/Game.cs:192 | an explosion tick takes one tick of life and changes nothing else |
| `Games.Explosion.constructor` | laba6/Game.cs:307-312 | an explosion with exactly the given location, radius, lifetime and colour |
| `Games.CountDown` | laba6/Game.cs:192-196 | one explosion ticks; if that leaves no life it is removed from the live list, and the walk goes on one entry further |
| `Games.CountedDownValid` | laba6/Game.cs:188-198 | after the explosion pass the survivors are distinct, exactly the old entries with life left, each with 1 to 10 ticks |
| `Games.Evaporate` | laba6/Game.cs:263-270 | one steam particle rises and shrinks; if that leaves no size it is removed from the live list, and the walk goes on one entry further |
| `Games.EvaporatedValid` | laba6/Game.cs:260-272 | after the steam pass the survivors are distinct, none is falling, each has size left, and they are exactly the old entries with size left |
| `Games.Game.constructor` | laba6/Game.cs:23-49 | a new game: cart 50 above the bottom at width 60 and free, empty lists, score 0, three lives, not over, no effect, counter 0, spawn rate 50, speed 3, size 10, and the invariant holds |
| `Games.Game.Update` | laba6/Game.cs:51-61 | once over, nothing changes at all; otherwise the invariant is kept, the spawn counter ticks and, for a rate of 1 to 99, stays below `100 - SpawnRate`; every falling particle afterwards was there before or is new, and at most one is new; the score never drops, lives only fall and each life lost fires one hit, game-over is never undone, and every falling particle left is uncollected and at most 100 below the cart |
| `Games.Game.Animate` | laba6/Game.cs:57-60 | the four moving passes keep the invariant, never drop the score or undo game-over, keep only falling particles that were there before, and leave only uncollected, near-enough falling particles |
| `Games.Game.FallingPass` | laba6/Game.cs:57 | the falling pass keeps the invariant and the score/lives/game-over facts, keeps only falling particles that were there before, and keeps the old explosions in place with only new ones after them |
| `Games.Game.Fade` | laba6/Game.cs:58-60 | steam emission, the steam pass and the explosion countdown keep the invariant and leave the falling particles in play |
| `Games.Game.Dissipate` | laba6/Game.cs:59-60 | the steam pass and the explosion countdown keep the invariant and leave the falling particles in play |
| `Games.Game.CheckEffects` | laba6/Game.cs:63-74 | the session moves exactly as `Expire` says, and the invariant is kept |
| `Games.Game.SpawnParticles` | laba6/Game.cs:76-84 | the counter moves as `NextCounter`; the only particle that can be new in the list is its last one, and it is fresh; a non-spawning tick leaves the list alone; a spawning tick appends exactly one fresh particle at x, 20 above the screen, with the current size and speed and the drawn colour and effect |
| `Games.Game.CreateParticle` | laba6/Game.cs:86-134 | exactly one fresh particle is appended after the old list, with the given x, y = -20, the current size and speed, not collected, and the colour and effect of `Draw`; the invariant is kept |
| `Games.Game.UpdateParticles` | laba6/Game.cs:137-155 | the session, the particles' new values and the new explosions are those of `FallAll` over the old particles' values; the list keeps exactly the old particles that are uncollected and at most 100 below the cart; the invariant is kept; the score never drops; lives only fall with one hit each; game-over is never undone |
| `Games.Game.FallStarts` | laba6/Game.cs:139 | before the pass nothing has been walked and no particle in the snapshot carries Steam |
| `Games.Game.FallenValid` | laba6/Game.cs:139-155 | after walking the whole snapshot the state is the whole pass's, the survivors are exactly the kept entries, and the invariant holds again |
| `Games.Game.FallStep` | laba6/Game.cs:140-153 | one loop step does one `FallOne` step of the pass and one step of the removal walk |
| `Games.Game.Sweep` | laba6/Game.cs:150-153 | a particle that is collected or more than 100 below the cart leaves the live list; otherwise it stays |
| `Games.Game.Fall` | laba6/Game.cs:141-148 | the particle falls by its speed; if it then touches the cart at the current width, the collision is handled; the result is one `FallOne` step |
| `Games.Game.Catch` | laba6/Game.cs:143-148 | a caught particle becomes collected, the session moves as `Collide`, and one explosion is appended |
| `Games.Game.HandleParticleCollision` | laba6/Game.cs:157-175 | the particle is collected, one fresh explosion is appended at its centre, and the session moves exactly as `Collide` says |
| `Games.Game.CreateExplosion` | laba6/Game.cs:177-186 | one fresh explosion is appended: at the particle's centre (truncating halves), radius its size, its colour, 10 ticks |
| `Games.Game.UpdateExplosions` | laba6/Game.cs:188-198 | every old explosion ticks once; the list keeps exactly those with life left, each with 1 to 10 ticks, with no repeats |
| `Games.Game.CountDownAll` | laba6/Game.cs:190-197 | the loop walks the whole snapshot: every entry has ticked, and the list is the survivors in order |
| `Games.Game.TickExplosion` | laba6/Game.cs:191-196 | one loop step of the explosion pass on the live list |
| `Games.Game.ApplyParticleEffect` | laba6/Game.cs:200-236 | the session moves exactly as `ApplyEffect` says |
| `Games.Game.ActivateInvulnerability` | laba6/Game.cs:238-242 | the session moves exactly as `Invulnerable` says: only the flag and its deadline change |
| `Games.Game.GenerateSteam` | laba6/Game.cs:244-258 | with the cart moving and a roll below 3, one fresh steam particle is appended at the cart's top centre plus the offset, of size 5 to 14, rising at 1 to 3; otherwise nothing changes; the invariant is kept |
| `Games.Game.UpdateSteam` | laba6/Game.cs:260-272 | every old steam particle rises and shrinks once; the list keeps exactly those with size left, with no repeats and none falling; falling particles do not move |
| `Games.Game.TickSteam` | laba6/Game.cs:263-270 | one loop step of the steam pass on the live list; falling particles do not move |
| `Games.Game.ResetCurrentEffect` | laba6/Game.cs:274-278 | the session moves exactly as `ResetEffect` says |
| `Games.Game.Reset` | laba6/Game.cs:293-304 | all lists empty, score 0, three lives, not over, no effect, not invulnerable, cart at base width and free; the invariant holds, so play resumes from a valid state |

## Left out

- The WinForms host (Form1.cs, Form1.Designer.cs) and every `Draw` method: GDI+ rendering with float alpha and `Math.Sin`, timers, trackbars, screen shake. The particle-size clamp in the form is host behaviour.
- `DateTime.Now` and `System.Random` are not modelled. The clock and the random numbers are arguments.
- `OnHit` event dispatch: only the fact that it fired is kept, as the counter `Hits`.
- Floats: `WheelRotation` is an integer sum of movements, and `ActivateInvulnerability` takes integer milliseconds instead of float seconds.
- The steam size update `Size - 0.1f` is modelled as "one less while positive". This agrees with the C# truncation for the integer sizes the engine uses.
- `Update` runs its passes through `Animate`, `FallingPass`, `Fade` and `Dissipate`. These methods only group the six calls in source order.
- The loop bodies of the three list passes are separate methods and lemmas: `FallStep`, `Fall`, `Catch` and `Sweep` for one iteration of the falling loop (Game.cs:141-153); `CountDownAll`, `TickExplosion` and `CountDown` for the explosion loop (Game.cs:190-197); `TickSteam` and `Evaporate` for the steam loop (Game.cs:262-271). They do what the loop body does, in the same order; the split keeps each proof small.
- `random.Next(0, screenWidth)` throws for a negative `screenWidth`. The model requires the spawn position to be a value `Next` can return (`CanReturn`), so it does not model that exception. The host passes the picture box's width, which is never negative.
- `CreateParticle` takes the colour and effect from `Draw` before constructing the particle, where the source constructs it first and then sets them in its branch chain. Nothing reads the particle in between, so the result is the same.
- C#'s `int` is 32 bits and wraps on overflow; the model's integers are unbounded. This matters for `Score += 5` and `Score++`, `Lives--`, `spawnCounter++`, `100 - SpawnRate` and the cart's X arithmetic. "The score never drops" (`Collide`, `FallAllSession`, `Update`) therefore holds only while the score stays below 2^31 - 1; in the source a score that large would wrap to a negative value.
- Each `DateTime.Now` read is modelled as the same single instant `now` for a whole tick. The source reads the clock twice in `CheckEffects` (Game.cs:65, 70) and once per applied timed effect (Game.cs:209, 214, 219, 241), so in the source those readings can differ by the time the tick takes.
- Games.Game.Update: states the invariant, the spawn counter and its bound, and the score, lives and game-over facts, not the full composed effect of its six passes on every field. The passes' own contracts state those effects. Its field-level `modifies` clause frames everything else, so the spawn rate, particle size and speed and the cart's position, height and travel do not change.
- Games.Game.Animate: states the invariant and the score, lives and game-over facts of the moving passes, not their composed effect.
- Games.Game.FallingPass: states only what `Animate` needs of `UpdateParticles`, whose own contract is complete.
- Games.Game.Fade: states only that the invariant and the in-play facts are kept.
- Games.Game.Dissipate: states only that the invariant and the in-play facts are kept.
- Games.Game.UpdateParticles: states which particles stay in the list, but not that the survivors keep their order. The loop invariant does prove the order (the list is the kept entries of the snapshot, in order), but an ensures that names that filtered sequence makes every caller's proof run out of resource, so the method promises membership only.
- Games.Game.UpdateSteam: states which steam particles stay in the list, but not that the survivors keep their order. The loop invariant does prove the order (the list is the kept entries of the snapshot, in order), but an ensures that names that filtered sequence makes every caller's proof run out of resource, so the method promises membership only.
- Games.Game.UpdateExplosions: states which explosions stay in the list, but not that the survivors keep their order. The loop invariant does prove the order (the list is the kept entries of the snapshot, in order), but an ensures that names that filtered sequence makes every caller's proof run out of resource, so the method promises membership only.
