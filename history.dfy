/** The editor's per-sprite undo/redo history. Every sprite carries two stacks of
    snapshots of its drawable data. Before an edit, the current state is pushed on the
    undo stack and the redo stack is cleared. Undo and redo each move the current state
    onto the opposite stack and restore the snapshot they pop. */
module History {
  import opened Binary
  import opened Sprites

  /** A deep copy of a sprite's pixel and attribute grids (`captureSpriteState`). */
  datatype Snapshot = Snapshot(pixelData: seq<seq<int>>, attributeData: seq<seq<byte>>)

  /** The `history` object of a sprite; the last element of each stack is its top. */
  datatype Stacks = Stacks(undoStack: seq<Snapshot>, redoStack: seq<Snapshot>)

  /** A sprite object of the editor together with its history. */
  datatype EditorSprite = EditorSprite(sprite: Sprite, history: Stacks)

  /** `applyHistoryState`: the grids are replaced and the dimensions are kept. */
  function Apply(s: Sprite, c: Snapshot): (r: Sprite)
    ensures r.width == s.width && r.height == s.height
    ensures r.pixelData == c.pixelData && r.attributeData == c.attributeData
  {
    s.(pixelData := c.pixelData, attributeData := c.attributeData)
  }

  /** `captureSpriteState`: applying the snapshot to the sprite it was taken from changes nothing. */
  function Capture(s: Sprite): (c: Snapshot)
    ensures Apply(s, c) == s
  {
    Snapshot(s.pixelData, s.attributeData)
  }

  /** `pushHistoryState` on one sprite. */
  function Push(e: EditorSprite): EditorSprite
  {
    e.(history := Stacks(e.history.undoStack + [Capture(e.sprite)], []))
  }

  /** `undo` on one sprite: nothing happens when the undo stack is empty. */
  function Undo(e: EditorSprite): EditorSprite
  {
    var u, r := e.history.undoStack, e.history.redoStack;
    if |u| == 0 then e
    else EditorSprite(Apply(e.sprite, u[|u| - 1]), Stacks(u[..|u| - 1], r + [Capture(e.sprite)]))
  }

  /** `redo` on one sprite: nothing happens when the redo stack is empty. */
  function Redo(e: EditorSprite): EditorSprite
  {
    var u, r := e.history.undoStack, e.history.redoStack;
    if |r| == 0 then e
    else EditorSprite(Apply(e.sprite, r[|r| - 1]), Stacks(u + [Capture(e.sprite)], r[..|r| - 1]))
  }

  /** A push, then any edit that keeps the sprite's dimensions, then an undo, gives back
      the sprite as it was before the push and the undo stack as it was. The redo stack
      then holds exactly the edited state. */
  lemma PushEditUndo(e: EditorSprite, edited: Sprite)
    requires edited.width == e.sprite.width && edited.height == e.sprite.height
    ensures Undo(EditorSprite(edited, Push(e).history))
         == EditorSprite(e.sprite, Stacks(e.history.undoStack, [Capture(edited)]))
  {
    var u := Push(e).history.undoStack;
    assert u[..|u| - 1] == e.history.undoStack;
    assert Apply(edited, Capture(e.sprite)) == e.sprite;
  }

  /** An undo is reversed by a redo. */
  lemma UndoRedo(e: EditorSprite)
    requires |e.history.undoStack| > 0
    ensures Redo(Undo(e)) == e
  {
    var u, r := e.history.undoStack, e.history.redoStack;
    assert (r + [Capture(e.sprite)])[..|r|] == r;
    assert u[..|u| - 1] + [u[|u| - 1]] == u;
  }

  /** A redo is reversed by an undo. */
  lemma RedoUndo(e: EditorSprite)
    requires |e.history.redoStack| > 0
    ensures Undo(Redo(e)) == e
  {
    var u, r := e.history.undoStack, e.history.redoStack;
    assert (u + [Capture(e.sprite)])[..|u|] == u;
    assert r[..|r| - 1] + [r[|r| - 1]] == r;
  }

  /** A push empties the redo stack, so a redo right after it does nothing. */
  lemma PushClearsRedo(e: EditorSprite)
    ensures Push(e).history.redoStack == [] && Redo(Push(e)) == Push(e)
    ensures Push(e).sprite == e.sprite
  {
  }

  /** Undo on an empty undo stack, and redo on an empty redo stack, change nothing. */
  lemma EmptyStacks(e: EditorSprite)
    ensures |e.history.undoStack| == 0 ==> Undo(e) == e
    ensures |e.history.redoStack| == 0 ==> Redo(e) == e
  {
  }

  /** Undo and redo move one snapshot between the stacks: none is lost or made up, and
      the sprite's dimensions stay. */
  lemma StackSizes(e: EditorSprite)
    ensures var n := |e.history.undoStack| + |e.history.redoStack|;
      && |Undo(e).history.undoStack| + |Undo(e).history.redoStack| == n
      && |Redo(e).history.undoStack| + |Redo(e).history.redoStack| == n
      && |Push(e).history.undoStack| == |e.history.undoStack| + 1
    ensures Undo(e).sprite.width == e.sprite.width && Undo(e).sprite.height == e.sprite.height
    ensures Redo(e).sprite.width == e.sprite.width && Redo(e).sprite.height == e.sprite.height
  {
  }

  // ---------------------------------------------------------------- well-formedness

  /** A snapshot that restores a well-formed sprite of `w` by `h` cells. */
  predicate SnapshotFits(c: Snapshot, w: nat, h: nat)
  {
    && |c.pixelData| == 8 * h
    && (forall y :: 0 <= y < |c.pixelData| ==> |c.pixelData[y]| == 8 * w)
    && |c.attributeData| == h
    && (forall y :: 0 <= y < |c.attributeData| ==> |c.attributeData[y]| == w)
    && forall y, x :: 0 <= y < |c.pixelData| && 0 <= x < |c.pixelData[y]| ==>
         c.pixelData[y][x] == 0 || c.pixelData[y][x] == 1
  }

  predicate AllFit(cs: seq<Snapshot>, w: nat, h: nat)
  {
    forall i :: 0 <= i < |cs| ==> SnapshotFits(cs[i], w, h)
  }

  /** A well-formed sprite whose every saved state has its dimensions. */
  predicate Fits(e: EditorSprite)
  {
    && WellFormed(e.sprite)
    && AllFit(e.history.undoStack, e.sprite.width, e.sprite.height)
    && AllFit(e.history.redoStack, e.sprite.width, e.sprite.height)
  }

  /** Pushing, undoing and redoing keep a sprite well-formed: a restored state always
      has the dimensions the sprite had when it was saved. */
  lemma HistoryKeepsFit(e: EditorSprite)
    requires Fits(e)
    ensures Fits(Push(e)) && Fits(Undo(e)) && Fits(Redo(e))
  {
    var w, h := e.sprite.width, e.sprite.height;
    assert SnapshotFits(Capture(e.sprite), w, h);
    var u, r := e.history.undoStack, e.history.redoStack;
    if |u| > 0 {
      assert SnapshotFits(u[|u| - 1], w, h);
      assert AllFit(r + [Capture(e.sprite)], w, h);
    }
    if |r| > 0 {
      assert SnapshotFits(r[|r| - 1], w, h);
      assert AllFit(u + [Capture(e.sprite)], w, h);
    }
  }

  /** An edit that keeps the sprite well-formed and its dimensions keeps the history valid. */
  lemma EditKeepsFit(e: EditorSprite, edited: Sprite)
    requires Fits(e) && WellFormed(edited)
    requires edited.width == e.sprite.width && edited.height == e.sprite.height
    ensures Fits(EditorSprite(edited, e.history))
  {
  }

  // ---------------------------------------------------------------- attribute bits

  /** `1 << k` for a bit index of a byte. */
  function BitMaskAt(k: nat): bv8
    requires k < 8
  {
    (1 as bv8) << k
  }

  /** Bit `k` of a byte, `(attr & (1 << k)) !== 0`. */
  predicate BitOf(b: byte, k: nat)
    requires k < 8
  {
    (b as bv8) & BitMaskAt(k) != 0
  }

  /** `attr ^= (1 << bit)` in `handleAttributeChange`. */
  function ToggleBit(attr: byte, bit: nat): byte
    requires bit < 8
  {
    XorByte(attr, BitMaskAt(bit) as int)
  }

  lemma MaskBit(bit: nat, k: nat)
    requires bit < 8 && k < 8
    ensures BitMaskAt(bit) & BitMaskAt(k) != 0 <==> bit == k
  {
  }

  /** The toggled byte, seen as a bit-vector, is the XOR of the old byte with the mask. */
  lemma ToggleAsBv(attr: byte, bit: nat)
    requires bit < 8
    ensures ToggleBit(attr, bit) as bv8 == (attr as bv8) ^ BitMaskAt(bit)
  {
    BvRoundTrip(BitMaskAt(bit));
    BvRoundTrip((attr as bv8) ^ BitMaskAt(bit));
  }

  /** The same on bit-vectors: XOR with the mask of `bit` flips bit `bit` only. */
  lemma FlipBv(a: bv8, bit: nat, k: nat)
    requires bit < 8 && k < 8
    ensures ((a ^ BitMaskAt(bit)) & BitMaskAt(k) != 0) == ((a & BitMaskAt(k) != 0) != (k == bit))
  {
    MaskBit(bit, k);
    assert (a ^ BitMaskAt(bit)) & BitMaskAt(k) == (a & BitMaskAt(k)) ^ (BitMaskAt(bit) & BitMaskAt(k));
  }

  /** Toggling flips bit `bit` and leaves the other seven bits as they were. */
  lemma ToggleFlips(attr: byte, bit: nat, k: nat)
    requires bit < 8 && k < 8
    ensures BitOf(ToggleBit(attr, bit), k) == (BitOf(attr, k) != (k == bit))
  {
    ToggleAsBv(attr, bit);
    FlipBv(attr as bv8, bit, k);
  }

  lemma XorBack(a: bv8, m: bv8, t: byte)
    requires t as bv8 == a ^ m
    ensures XorByte(t, m as int) == a as int
  {
    BvRoundTrip(m);
    assert (a ^ m) ^ m == a;
  }

  /** Toggling the same bit twice gives the byte back. */
  lemma ToggleTwice(attr: byte, bit: nat)
    requires bit < 8
    ensures ToggleBit(ToggleBit(attr, bit), bit) == attr
  {
    var a, m := attr as bv8, BitMaskAt(bit);
    BvRoundTrip(m);
    BvRoundTrip(a ^ m);
    XorBack(a, m, ToggleBit(attr, bit));
    ByteRoundTrip(attr);
  }

  /** The sprite with attribute cell (x, y) set to `v`. */
  function SetAttr(s: Sprite, x: nat, y: nat, v: byte): (r: Sprite)
    requires y < |s.attributeData| && x < |s.attributeData[y]|
    ensures |r.attributeData| == |s.attributeData|
    ensures forall j :: 0 <= j < |s.attributeData| ==> |r.attributeData[j]| == |s.attributeData[j]|
    ensures r.attributeData[y][x] == v
    ensures forall j, i :: 0 <= j < |s.attributeData| && 0 <= i < |s.attributeData[j]| && (j, i) != (y, x) ==>
      r.attributeData[j][i] == s.attributeData[j][i]
    ensures WellFormed(s) ==> WellFormed(r)
    ensures r.width == s.width && r.height == s.height && r.pixelData == s.pixelData
  {
    var row: seq<byte> := s.attributeData[y][x := v];
    s.(attributeData := s.attributeData[y := row])
  }

  /** The sprite with pixel (x, y) set to `v`. */
  function SetPixel(s: Sprite, x: nat, y: nat, v: int): (r: Sprite)
    requires y < |s.pixelData| && x < |s.pixelData[y]|
    ensures |r.pixelData| == |s.pixelData|
    ensures forall j :: 0 <= j < |s.pixelData| ==> |r.pixelData[j]| == |s.pixelData[j]|
    ensures r.pixelData[y][x] == v
    ensures forall j, i :: 0 <= j < |s.pixelData| && 0 <= i < |s.pixelData[j]| && (j, i) != (y, x) ==>
      r.pixelData[j][i] == s.pixelData[j][i]
    ensures WellFormed(s) && (v == 0 || v == 1) ==> WellFormed(r)
    ensures r.width == s.width && r.height == s.height && r.attributeData == s.attributeData
  {
    s.(pixelData := s.pixelData[y := s.pixelData[y][x := v]])
  }
}
