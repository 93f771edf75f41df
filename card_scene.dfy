/** The mounted card animation: one position per card, the four target
    lists, and the timer-driven counter that sends the cards to the sphere,
    helix and grid layouts in turn. */
module CardAnimation {
  import opened Numerics
  import opened CardLayout

  datatype Option<T> = None | Some(value: T)

  class CardScene {
    /** The current position of each card. */
    const objects: array<Vec3>
    const targets: Targets
    /** Index into LayoutSequence of the next layout to show. */
    var seqIndex: nat
    /** The layout last shown by the cycle, if any. */
    var currentMode: Option<LayoutKey>

    /** Every target list has exactly one entry per card, and the counter
        indexes LayoutSequence. */
    ghost predicate Valid()
      reads this
    {
      && seqIndex < |LayoutSequence|
      && forall key :: |targets.Of(key)| == objects.Length
    }

    /** Mounting: one card per record (at most MaxCards), placed at
        `randomStart`, then sent to the stack layout. */
    constructor (m: MathLib, randomStart: nat -> Vec3)
      ensures Valid() && fresh(objects)
      ensures objects.Length == CardCount(|CardData()|)
      ensures targets == LayoutTargets(objects.Length, m)
      ensures objects[..] == targets.table
      ensures seqIndex == 0 && currentMode == None
    {
      var count := CardCount(|CardData()|);
      objects := new Vec3[count](i => randomStart(i));
      var built := BuildTargets(count, m);
      targets := built;
      seqIndex := 0;
      currentMode := None;
      new;
      Transform(targets.table);
    }

    /** Sends card i to `layout[i]`, for every card. The tween's duration
        and easing are not modelled: this is where each card comes to rest. */
    method Transform(layout: seq<Vec3>)
      requires |layout| >= objects.Length
      modifies objects
      ensures objects[..] == layout[..objects.Length]
    {
      for i := 0 to objects.Length
        invariant forall j | 0 <= j < i :: objects[j] == layout[j]
      {
        var target := layout[i];
        objects[i] := target;
      }
    }

    /** One firing of the cycle timer: show the layout the counter points
        at, record it as the current mode, and advance the counter modulo
        the length of the sequence. */
    method Fire() returns (key: LayoutKey)
      requires Valid()
      modifies this, objects
      ensures Valid()
      ensures key == LayoutSequence[old(seqIndex)] && key != Table
      ensures objects[..] == targets.Of(key)
      ensures currentMode == Some(key)
      ensures seqIndex == NextIndex(old(seqIndex))
    {
      key := LayoutSequence[seqIndex];
      Transform(targets.Of(key));
      currentMode := Some(key);
      seqIndex := (seqIndex + 1) % |LayoutSequence|;
    }
  }

  /** The first `ticks` firings of the cycle timer on a freshly mounted
      scene: the layouts they show, in order, where they leave the cards,
      and the counter they leave for the next firing. */
  method CycleSchedule(c: CardScene, ticks: nat) returns (shown: seq<LayoutKey>)
    requires c.Valid() && c.seqIndex == 0
    modifies c, c.objects
    ensures c.Valid()
    ensures |shown| == ticks
    ensures forall k | 0 <= k < ticks :: shown[k] == LayoutSequence[k % |LayoutSequence|]
    ensures forall k | 0 <= k < ticks :: shown[k] != Table
    ensures ticks > 0 ==> c.objects[..] == c.targets.Of(shown[ticks - 1]) && c.currentMode == Some(shown[ticks - 1])
    ensures ticks == 0 ==> c.objects[..] == old(c.objects[..]) && c.currentMode == old(c.currentMode)
    ensures c.seqIndex == ticks % |LayoutSequence|
  {
    shown := [];
    while |shown| < ticks
      invariant c.Valid() && |shown| <= ticks
      invariant c.seqIndex == IndexAfter(|shown|)
      invariant forall k | 0 <= k < |shown| :: shown[k] == LayoutSequence[k % |LayoutSequence|]
      invariant |shown| > 0 ==> c.objects[..] == c.targets.Of(shown[|shown| - 1]) && c.currentMode == Some(shown[|shown| - 1])
      invariant |shown| == 0 ==> c.objects[..] == old(c.objects[..]) && c.currentMode == old(c.currentMode)
    {
      IndexAfterCountsTicks(|shown|);
      var key := c.Fire();
      shown := shown + [key];
    }
    IndexAfterCountsTicks(|shown|);
  }
}
