/** The per-frame state of the sphere demo: the vertex buffer, the set of
    vertex indices already recoloured in the current pass, the selected and
    previous colour, the current fill colour and the `is_changing_color` flag;
    the colour-selection step, the colour mapping and the fill step of
    `sceneRender`, and one frame of the main loop built from them. */
module ColorFill {
  import opened Sampling

  /** `sizeof(sphere) / sizeof(Vertex)`: the mesh holds 240 triangles of 3
      vertices, the count both draw calls use. */
  const VertexCount: nat := 240 * 3

  /** The modulus the source applies to `rand()`. */
  const SourceRange: nat := 240

  /** The modulus that makes the sampling range agree with the guard. */
  const IntendedRange: nat := VertexCount

  /** A `glm::vec3`: a position or an RGB colour. */
  datatype Vec3 = Vec3(x: real, y: real, z: real)

  datatype Vertex = Vertex(position: Vec3, color: Vec3)

  /** The pad buttons the colour selection looks at. */
  datatype Button = Up | StickLUp | Down | StickLDown

  /** What one copy of the fill block did: nothing (its guard failed),
      recoloured one vertex, or ran out of `rand()` values inside the
      rejection loop. */
  datatype Block = Skipped | Filled(index: int) | Stalled

  function Min(a: int, b: int): (m: int)
    ensures m <= a && m <= b && (m == a || m == b)
  {
    if a <= b then a else b
  }

  /** Component k of a colour: 0 red, 1 green, 2 blue. */
  function Channel(c: Vec3, k: int): (r: real)
    ensures r == c.x || r == c.y || r == c.z
  {
    if k == 0 then c.x else if k == 1 then c.y else c.z
  }

  predicate UpHeld(held: set<Button>)
  {
    Up in held || StickLUp in held
  }

  predicate DownHeld(held: set<Button>)
  {
    Down in held || StickLDown in held
  }

  /** The colour the pad selects: Up beats Down, nothing held means 0. */
  function Selection(held: set<Button>): (s: int)
    ensures 0 <= s <= 2
    ensures s == 2 <==> UpHeld(held)
    ensures s == 1 <==> !UpHeld(held) && DownHeld(held)
    ensures s == 0 <==> !UpHeld(held) && !DownHeld(held)
  {
    if UpHeld(held) then 2 else if DownHeld(held) then 1 else 0
  }

  /** The fill colour of a selection: the pure primary that lights channel `sel`
      (0 red, 1 green, 2 blue). */
  function Target(sel: int): (c: Vec3)
    requires 0 <= sel <= 2
    ensures forall k :: 0 <= k <= 2 ==> Channel(c, k) == if k == sel then 1.0 else 0.0
  {
    if sel == 0 then Vec3(1.0, 0.0, 0.0)
    else if sel == 1 then Vec3(0.0, 1.0, 0.0)
    else Vec3(0.0, 0.0, 1.0)
  }

  /** Distinct selections give distinct fill colours, so the fill colour
      changes exactly when the selection does. */
  lemma TargetInjective(a: int, b: int)
    requires 0 <= a <= 2 && 0 <= b <= 2
    ensures Target(a) == Target(b) <==> a == b
  {
  }

  /** The recorded set and the rest of the `rand()` supply after some copies
      of the fill block, with what the last copy run did. */
  datatype Pass = Pass(taken: set<int>, draws: seq<nat>, last: Block)

  /** One copy of the fill block on the recorded set `taken` and the supply
      `draws`, where `n` is the vertex count its guard compares with. */
  function Step(taken: set<int>, draws: seq<nat>, range: nat, n: nat): Pass
    requires 0 < range
  {
    if |taken| >= n then Pass(taken, draws, Skipped)
    else match Sample(taken, draws, range)
      case Hit(i, used) => Pass(taken + {i}, draws[used..], Filled(i))
      case Starved => Pass(taken, [], Stalled)
  }

  /** A block is skipped exactly when its guard fails, and then changes
      nothing. It stalls exactly when the guard holds and the draw starves,
      and then leaves no draws. Otherwise it records the index `Sample`
      draws, which lies in [0, range) and was not yet recorded, and leaves the
      draws after those it consumed. */
  lemma StepFacts(taken: set<int>, draws: seq<nat>, range: nat, n: nat)
    requires 0 < range
    ensures var p := Step(taken, draws, range, n);
      && (p.last == Skipped <==> |taken| >= n)
      && (p.last == Skipped ==> p.taken == taken && p.draws == draws)
      && (p.last == Stalled <==> |taken| < n && Sample(taken, draws, range) == Starved)
      && (p.last == Stalled ==> p.taken == taken && p.draws == [])
      && (p.last.Filled? ==>
        && Sample(taken, draws, range).Hit? && Sample(taken, draws, range).index == p.last.index
        && p.draws == draws[Sample(taken, draws, range).consumed..]
        && 0 <= p.last.index < range && p.last.index !in taken
        && p.taken == taken + {p.last.index} && |p.taken| == |taken| + 1)
  {
  }

  /** `k` copies of the fill block run one after the other, stopping at the
      first one that stalls. */
  function Blocks(k: nat, taken: set<int>, draws: seq<nat>, range: nat, n: nat): (p: Pass)
    requires 0 < k && 0 < range
    ensures taken <= p.taken && |p.taken| <= |taken| + k
    ensures forall i :: i in p.taken && i !in taken ==> 0 <= i < range
    ensures p.last == Stalled ==> p.draws == []
    decreases k
  {
    StepFacts(taken, draws, range, n);
    var q := Step(taken, draws, range, n);
    if k == 1 || q.last == Stalled then q else Blocks(k - 1, q.taken, q.draws, range, n)
  }

  /** Without a stall, `k` copies leave min(|taken| + k, n) indices recorded,
      and the last copy is skipped exactly when its guard finds the mesh
      complete. */
  lemma {:induction false} BlocksSize(k: nat, taken: set<int>, draws: seq<nat>, range: nat, n: nat)
    requires 0 < k && 0 < range <= n
    requires forall i :: i in taken ==> 0 <= i < range
    ensures Blocks(k, taken, draws, range, n).last != Stalled ==>
      && |Blocks(k, taken, draws, range, n).taken| == Min(|taken| + k, n)
      && (Blocks(k, taken, draws, range, n).last == Skipped <==> |taken| + k - 1 >= n)
  {
    SubsetOfRangeBound(taken, range);
    StepFacts(taken, draws, range, n);
    var q := Step(taken, draws, range, n);
    if k == 1 || q.last == Stalled {
      assert Blocks(k, taken, draws, range, n) == q;
    } else {
      assert Blocks(k, taken, draws, range, n) == Blocks(k - 1, q.taken, q.draws, range, n);
      BlocksSize(k - 1, q.taken, q.draws, range, n);
    }
  }

  /** The four blocks of a frame: the set only grows, by at most four; a
      stall leaves no draws; otherwise the set reaches min(|taken| + 4, n),
      and the fourth block is skipped exactly when `taken` held at least
      n - 3 indices. */
  lemma FourBlocks(taken: set<int>, draws: seq<nat>, range: nat, n: nat)
    requires 0 < range <= n
    requires forall i :: i in taken ==> 0 <= i < range
    ensures var p := Blocks(4, taken, draws, range, n);
      && taken <= p.taken && |p.taken| <= |taken| + 4
      && (p.last == Stalled ==> p.draws == [])
      && (p.last != Stalled ==> |p.taken| == Min(|taken| + 4, n))
      && (p.last == Skipped <==> p.last != Stalled && |taken| + 3 >= n)
  {
    BlocksSize(4, taken, draws, range, n);
  }

  class Scene {
    /** The vertex buffer `sphere`. */
    const sphere: array<Vertex>
    /** `changed_indeces`: the vertices recoloured in the current pass. */
    var changed: set<int>
    var isChangingColor: bool
    var selectedColor: int
    var prevColor: int
    /** The current fill colour `color`. */
    var color: Vec3
    /** The values `rand()` returns from now on, in order. */
    var rng: seq<nat>
    /** The modulus applied to `rand()` when drawing an index. */
    const range: nat

    ghost predicate Valid()
      reads this`changed, this`selectedColor, this`prevColor
    {
      && sphere.Length == VertexCount
      && 0 < range <= sphere.Length
      && (forall i :: i in changed ==> 0 <= i < range)
      && 0 <= selectedColor <= 2
      && 0 <= prevColor <= 2
    }

    /** The vertex buffer as it was when the current pass began. */
    ghost var passStart: seq<Vertex>

    /** The buffer is the one the pass began with, with every vertex recorded
        in the pass given the fill colour. (`passStart` exists only for this
        invariant; the source keeps no such copy.) */
    ghost predicate Painted()
      reads this`passStart, this`changed, this`color, sphere
    {
      && |passStart| == sphere.Length
      && forall j :: 0 <= j < sphere.Length ==>
        sphere[j] == if j in changed then passStart[j].(color := color) else passStart[j]
    }

    /** Between frames the fill colour is the one of the last selection. */
    ghost predicate Steady()
      reads this`prevColor, this`color
    {
      0 <= prevColor <= 2 && color == Target(prevColor)
    }

    /** Program start: the mesh as loaded, nothing recorded, red selected. */
    constructor (mesh: seq<Vertex>, sampleRange: nat, draws: seq<nat>)
      requires |mesh| == VertexCount && 0 < sampleRange <= VertexCount
      ensures Valid() && Painted() && Steady()
      ensures fresh(sphere) && sphere[..] == mesh && passStart == mesh
      ensures changed == {} && !isChangingColor
      ensures selectedColor == 0 && prevColor == 0 && color == Target(0)
      ensures rng == draws && range == sampleRange
    {
      sphere := new Vertex[|mesh|](i requires 0 <= i < |mesh| => mesh[i]);
      passStart := mesh;
      changed := {};
      isChangingColor := false;
      selectedColor := 0;
      prevColor := 0;
      color := Vec3(1.0, 0.0, 0.0);
      rng := draws;
      range := sampleRange;
    }

    /** One copy of the fill block: if fewer indices are recorded than the mesh
        has vertices, draw a fresh index, recolour that vertex and record it. */
    method FillBlock() returns (b: Block)
      requires Valid() && Painted()
      modifies this`changed, this`rng, sphere
      ensures Valid() && Painted()
      ensures Pass(changed, rng, b) == Step(old(changed), old(rng), range, sphere.Length)
      ensures forall j :: 0 <= j < sphere.Length ==> sphere[j].position == old(sphere[j].position)
      ensures forall j :: 0 <= j < sphere.Length && (j !in changed || j in old(changed)) ==> sphere[j] == old(sphere[j])
    {
      if |changed| < sphere.Length {
        var s := RejectionSample(changed, rng, range);
        match s
        case Hit(i, used) =>
          // The source writes the same element three times.
          sphere[i] := sphere[i].(color := color);
          sphere[i] := sphere[i].(color := color);
          sphere[i] := sphere[i].(color := color);
          changed := changed + {i};
          rng := rng[used..];
          b := Filled(i);
        case Starved =>
          rng := [];
          b := Stalled;
      } else {
        b := Skipped;
      }
    }

    /** The fill part of `sceneRender`: four copies of the block, the last one
        with an `else` that clears `isChangingColor`. `stalled` means a block
        ran out of `rand()` values, so the frame did not get past it. */
    method Render() returns (stalled: bool)
      requires Valid() && Painted()
      modifies this`changed, this`rng, this`isChangingColor, sphere
      ensures Valid() && Painted()
      ensures var p := Blocks(4, old(changed), old(rng), range, sphere.Length);
        && changed == p.taken && rng == p.draws && (stalled <==> p.last == Stalled)
        && isChangingColor == if p.last == Skipped then false else old(isChangingColor)
      ensures forall j :: 0 <= j < sphere.Length ==> sphere[j].position == old(sphere[j].position)
      ensures forall j :: 0 <= j < sphere.Length && (j !in changed || j in old(changed)) ==> sphere[j] == old(sphere[j])
    {
      ghost var pass := Blocks(4, changed, rng, range, sphere.Length);
      var b := FillBlock();
      if b == Stalled {
        PaintedKeeps(this);
        return true;
      }
      assert pass == Blocks(3, changed, rng, range, sphere.Length);
      b := FillBlock();
      if b == Stalled {
        PaintedKeeps(this);
        return true;
      }
      assert pass == Blocks(2, changed, rng, range, sphere.Length);
      b := FillBlock();
      if b == Stalled {
        PaintedKeeps(this);
        return true;
      }
      assert pass == Blocks(1, changed, rng, range, sphere.Length);
      b := FillBlock();
      PaintedKeeps(this);
      if b == Stalled {
        return true;
      }
      if b == Skipped {
        isChangingColor := false;
      }
      return false;
    }

    /** The colour-selection step of the main loop: pick the colour from the
        pad and start a new pass when it differs from the previous frame's. */
    method SelectColor(held: set<Button>)
      requires Valid() && Painted()
      modifies this`selectedColor, this`isChangingColor, this`changed, this`passStart
      ensures Valid() && Painted()
      ensures selectedColor == Selection(held)
      ensures selectedColor != prevColor ==> changed == {} && isChangingColor && passStart == old(sphere[..])
      ensures selectedColor == prevColor ==> changed == old(changed) && !isChangingColor && passStart == old(passStart)
    {
      if UpHeld(held) {
        selectedColor := 2;
        if prevColor != selectedColor {
          isChangingColor := true;
          changed := {};
          passStart := sphere[..];
        } else {
          isChangingColor := false;
        }
      } else if DownHeld(held) {
        selectedColor := 1;
        if prevColor != selectedColor {
          isChangingColor := true;
          changed := {};
          passStart := sphere[..];
        } else {
          isChangingColor := false;
        }
      } else {
        selectedColor := 0;
        if prevColor != selectedColor {
          isChangingColor := true;
          changed := {};
          passStart := sphere[..];
        } else {
          isChangingColor := false;
        }
      }
    }

    /** The `switch` that sets the fill colour from the selection; an
        out-of-range selection leaves it as it was. */
    method ApplyColor()
      modifies this`color
      ensures 0 <= selectedColor <= 2 ==> color == Target(selectedColor)
      ensures !(0 <= selectedColor <= 2) ==> color == old(color)
    {
      match selectedColor
      case 0 => color := Vec3(1.0, 0.0, 0.0);
      case 1 => color := Vec3(0.0, 1.0, 0.0);
      case 2 => color := Vec3(0.0, 0.0, 1.0);
      case _ =>
    }

    /** One iteration of the main loop, as far as the colour fill goes:
        selection, colour mapping, the fill step, then `prev_color`. */
    method Frame(held: set<Button>) returns (stalled: bool)
      requires Valid() && Painted() && Steady()
      modifies this, sphere
      ensures Valid() && Painted()
      ensures selectedColor == old(prevColor) ==> passStart == old(passStart)
      ensures selectedColor != old(prevColor) ==> passStart == old(sphere[..])
      ensures selectedColor == Selection(held) && color == Target(selectedColor)
      ensures forall i :: i in changed ==> sphere[i].color == Target(selectedColor)
      ensures selectedColor == old(prevColor) ==>
        old(changed) <= changed && |changed| <= |old(changed)| + 4
      ensures selectedColor != old(prevColor) ==> |changed| <= 4
      ensures !stalled ==> prevColor == selectedColor && Steady()
      ensures stalled ==> prevColor == old(prevColor) && rng == []
      ensures color == old(color) <==> selectedColor == old(prevColor)
      ensures isChangingColor == (selectedColor != old(prevColor))
      ensures forall j :: 0 <= j < sphere.Length ==> sphere[j].position == old(sphere[j].position)
      ensures forall j :: 0 <= j < sphere.Length && j !in changed ==> sphere[j] == old(sphere[j])
      ensures var p := Blocks(4, if selectedColor == old(prevColor) then old(changed) else {}, old(rng), range, sphere.Length);
        changed == p.taken && rng == p.draws && (stalled <==> p.last == Stalled)
      ensures !stalled && selectedColor == old(prevColor) ==> |changed| == Min(|old(changed)| + 4, sphere.Length)
      ensures !stalled && selectedColor != old(prevColor) ==> |changed| == 4
    {
      TargetInjective(Selection(held), prevColor);
      ghost var r0 := rng;
      SelectColor(held);
      ApplyColor();
      assert Painted();
      assert rng == r0;
      FourBlocks(changed, rng, range, sphere.Length);
      stalled := Render();
      if !stalled {
        prevColor := selectedColor;
      }
      FrameKeeps(this);
    }
  }

  /** Between two states of one pass that are both `Painted`, with the same
      start and fill colour and a recorded set that only grew: every
      position is kept, and only newly recorded vertices changed. */
  twostate lemma PaintedKeeps(s: Scene)
    requires old(s.Painted()) && s.Painted()
    requires old(s.passStart) == s.passStart && old(s.color) == s.color
    requires old(s.changed) <= s.changed
    ensures forall j :: 0 <= j < s.sphere.Length ==> s.sphere[j].position == old(s.sphere[j].position)
    ensures forall j :: 0 <= j < s.sphere.Length && (j !in s.changed || j in old(s.changed)) ==>
      s.sphere[j] == old(s.sphere[j])
  {
  }

  /** Between the start and the end of a frame, both `Painted`: if the frame
      began a new pass from the buffer it found, or continued the pass with a
      grown set and the same fill colour, then every position is kept and
      every vertex not recorded at the end is as it was. */
  twostate lemma FrameKeeps(s: Scene)
    requires old(s.Painted()) && s.Painted()
    requires || s.passStart == old(s.sphere[..])
             || (s.passStart == old(s.passStart) && old(s.color) == s.color && old(s.changed) <= s.changed)
    ensures forall j :: 0 <= j < s.sphere.Length ==> s.sphere[j].position == old(s.sphere[j].position)
    ensures forall j :: 0 <= j < s.sphere.Length && j !in s.changed ==> s.sphere[j] == old(s.sphere[j])
  {
  }

  /** With the intended range, once the pass has recorded as many indices as
      the mesh has vertices, every vertex carries the fill colour. */
  lemma CompletePassPaintsMesh(s: Scene)
    requires s.Valid() && s.Painted() && s.range == IntendedRange
    requires |s.changed| == s.sphere.Length
    ensures forall j :: 0 <= j < s.sphere.Length ==> s.sphere[j].color == s.color
  {
    FullSubsetIsRange(s.changed, s.range);
  }

  /** As written: a pass that has recorded all 240 residues still passes the
      guard, which compares with the 720 vertices, and from then on no
      sequence of `rand()` values lets the rejection loop exit. */
  lemma SourceGuardAdmitsEndlessRejection(taken: set<int>, draws: seq<nat>)
    requires forall i :: i in taken ==> 0 <= i < SourceRange
    requires |taken| == SourceRange
    ensures |taken| < VertexCount
    ensures Sample(taken, draws, SourceRange) == Starved
  {
    FullSubsetIsRange(taken, SourceRange);
  }

  /** As written, the fill can never find the mesh complete: at most 240
      indices are ever recorded (four blocks keep every index below 240), so
      the fourth block is never skipped and its `else` never clears
      `isChangingColor`. That has no effect on the
      state after a frame: the selection step already lowers the flag in every
      frame whose selection is unchanged, and `Frame` ensures the flag ends up
      exactly "the selection changed", whichever range is used. */
  lemma SourceFillNeverCompletes(taken: set<int>, draws: seq<nat>)
    requires forall i :: i in taken ==> 0 <= i < SourceRange
    ensures |taken| <= SourceRange && |taken| + 3 < VertexCount
    ensures var p := Blocks(4, taken, draws, SourceRange, VertexCount);
      && p.last != Skipped
      && (forall i :: i in p.taken ==> 0 <= i < SourceRange)
      && |p.taken| <= SourceRange
  {
    SubsetOfRangeBound(taken, SourceRange);
    FourBlocks(taken, draws, SourceRange, VertexCount);
    var p := Blocks(4, taken, draws, SourceRange, VertexCount);
    SubsetOfRangeBound(p.taken, SourceRange);
  }

  /** Corrected: with the range equal to the vertex count, whenever the guard
      holds some index is still free, so the rejection loop can exit. */
  lemma IntendedGuardAdmitsFreshDraw(taken: set<int>)
    requires forall i :: i in taken ==> 0 <= i < IntendedRange
    requires |taken| < VertexCount
    ensures exists v :: 0 <= v < IntendedRange && v !in taken && Sample(taken, [v, v], IntendedRange) == Hit(v, 2)
  {
    FreeResidueCanBeDrawn(taken, IntendedRange);
  }
}
