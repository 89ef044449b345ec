/** The editor state around the sprite list: the list of sprites with their histories,
    the selected sprite and the selected attribute cell; and the operations that edit them:
    adding and reordering sprites, selecting, painting a pixel, toggling an attribute
    bit, undo and redo, and loading the records of a code block. */
module Editor {
  import opened Binary
  import opened Sprites
  import opened SpriteProofs
  import opened SpriteCodec
  import opened History

  /** `addSprite` refuses to grow the list beyond this many sprites; record ids are one byte. */
  const MaxSprites: nat := 255

  /** `Array(n).fill(v)`. */
  function Filled<T>(n: nat, v: T): (r: seq<T>)
    ensures |r| == n && forall i :: 0 <= i < n ==> r[i] == v
  {
    if n == 0 then [] else Filled(n - 1, v) + [v]
  }

  /** `createNewSprite(w, h)`: all pixels clear and every attribute 56 (black ink on
      white paper), with an empty history. */
  function NewSprite(w: nat, h: nat): (s: Sprite)
    ensures s.width == w && s.height == h && Shaped(s)
    ensures forall y, x :: 0 <= y < |s.pixelData| && 0 <= x < |s.pixelData[y]| ==> s.pixelData[y][x] == 0
    ensures forall y, x :: 0 <= y < |s.attributeData| && 0 <= x < |s.attributeData[y]| ==> s.attributeData[y][x] == 56
    ensures 1 <= w <= 255 && 1 <= h <= 255 ==> WellFormed(s)
  {
    Sprite(w, h, Filled(8 * h, Filled(8 * w, 0)), Filled(h, Filled(w, 56)))
  }

  function NewEditorSprite(w: nat, h: nat): (e: EditorSprite)
    ensures e.sprite == NewSprite(w, h) && e.history == Stacks([], [])
    ensures 1 <= w <= 255 && 1 <= h <= 255 ==> Fits(e)
  {
    EditorSprite(NewSprite(w, h), Stacks([], []))
  }

  /** The sprite list after `addSprite`: a new 2 by 2 sprite at the end, unless the list is full. */
  function Added(list: seq<EditorSprite>): seq<EditorSprite>
  {
    if |list| >= MaxSprites then list else list + [NewEditorSprite(2, 2)]
  }

  /** Adding never takes a list beyond 255 sprites, adds exactly one sprite to a list that
      is not full, and keeps every sprite in the list well-formed. */
  lemma AddedBound(list: seq<EditorSprite>)
    requires forall i :: 0 <= i < |list| ==> Fits(list[i])
    ensures |list| <= MaxSprites ==> |Added(list)| <= MaxSprites
    ensures |list| < MaxSprites ==> |Added(list)| == |list| + 1 && Added(list)[..|list|] == list
    ensures |list| >= MaxSprites ==> Added(list) == list
    ensures forall i :: 0 <= i < |Added(list)| ==> Fits(Added(list)[i])
  {
    if |list| < MaxSprites {
      assert Fits(NewEditorSprite(2, 2));
      assert (list + [NewEditorSprite(2, 2)])[..|list|] == list;
    }
  }

  /** The destructuring swap `[a[i], a[j]] = [a[j], a[i]]`. */
  function Swap<T>(l: seq<T>, i: nat, j: nat): (r: seq<T>)
    requires i < |l| && j < |l|
    ensures |r| == |l| && r[i] == l[j] && r[j] == l[i]
    ensures forall k :: 0 <= k < |l| && k != i && k != j ==> r[k] == l[k]
    ensures multiset(r) == multiset(l)
  {
    l[i := l[j]][j := l[i]]
  }

  /** Moving a sprite up and then back down gives the original order. */
  lemma SwapTwice<T>(l: seq<T>, i: nat, j: nat)
    requires i < |l| && j < |l|
    ensures Swap(Swap(l, i, j), i, j) == l
  {
    var r := Swap(Swap(l, i, j), i, j);
    assert forall k :: 0 <= k < |l| ==> r[k] == l[k];
  }

  /** The sprites of the editor, without their histories, as `handleSave` reads them. */
  function SpritesOf(list: seq<EditorSprite>): (r: seq<Sprite>)
    ensures |r| == |list| && forall i :: 0 <= i < |list| ==> r[i] == list[i].sprite
  {
    if list == [] then [] else SpritesOf(list[..|list| - 1]) + [list[|list| - 1].sprite]
  }

  /** A loaded sprite list: every parsed sprite gets an empty history. */
  function Loaded(sprites: seq<Sprite>): (r: seq<EditorSprite>)
    ensures |r| == |sprites| && forall i :: 0 <= i < |sprites| ==> r[i] == EditorSprite(sprites[i], Stacks([], []))
  {
    if sprites == [] then [] else Loaded(sprites[..|sprites| - 1]) + [EditorSprite(sprites[|sprites| - 1], Stacks([], []))]
  }

  /** Loading and then saving hands back the parsed sprites; freshly loaded sprites are
      valid when the parsed ones are well-formed. */
  lemma LoadedSprites(sprites: seq<Sprite>)
    ensures SpritesOf(Loaded(sprites)) == sprites
    ensures AllWellFormed(sprites) ==> forall i :: 0 <= i < |sprites| ==> Fits(Loaded(sprites)[i])
  {
    var l := Loaded(sprites);
    var back := SpritesOf(l);
    assert forall i :: 0 <= i < |sprites| ==> back[i] == sprites[i];
    if AllWellFormed(sprites) {
      forall i | 0 <= i < |sprites|
        ensures Fits(l[i])
      {
        assert l[i] == EditorSprite(sprites[i], Stacks([], []));
        assert WellFormed(sprites[i]);
      }
    }
  }

  /** Sprites kept valid by the editor are exactly the ones the save path accepts. */
  lemma FitsWellFormed(list: seq<EditorSprite>)
    requires forall i :: 0 <= i < |list| ==> Fits(list[i])
    ensures AllWellFormed(SpritesOf(list)) && AllShaped(SpritesOf(list))
  {
  }

  /** What `selectSprite` leaves selected: the sprite index and the attribute cell
      (-1, -1 for none). */
  datatype Selection = Selection(index: int, charX: int, charY: int)

  /** `selectSprite(index)` as written: on an empty list it only clears the canvas and
      returns, so the previous index and the previous attribute cell are both kept;
      otherwise it selects the in-range index, or 0, and clears the cell. */
  function SelectAsWritten(count: nat, current: Selection, index: int): Selection
  {
    if count == 0 then current
    else Selection(if index < 0 || index >= count then 0 else index, -1, -1)
  }

  /** The guard of `handleAttributeChange`: with a cell selected it goes on to read the
      attribute of the selected sprite. */
  predicate AttributeChangeGoesOn(sel: Selection)
  {
    sel.charX >= 0
  }

  /** Loading a code block that holds no sprite record empties the list. The index kept
      by `selectSprite` then names a sprite that does not exist, and a kept cell lets
      `handleAttributeChange` past its guard to read that sprite. The corrected selection
      leaves neither an index nor a cell. */
  lemma StaleSelection(current: Selection)
    requires current.index >= 0 && current.charX >= 0
    ensures var r := SelectAsWritten(0, current, 0);
      && r == current && r.index >= 0 && r.index != Select(0, 0)
      && AttributeChangeGoesOn(r) && !AttributeChangeGoesOn(Selection(Select(0, 0), -1, -1))
  {
  }

  /** The index `selectSprite(index)` selects, with the empty list leaving nothing selected
      as `deleteSelectedSprite` does: an index that is in range is kept, any other index
      falls back to the first sprite. */
  function Select(count: nat, index: int): (r: int)
    ensures -1 <= r < count && (r == -1 <==> count == 0)
    ensures 0 <= index < count ==> r == index
  {
    if count == 0 then -1 else if index < 0 || index >= count then 0 else index
  }

  /** The state of the editor: the sprite list, the selected sprite (-1 for none) and the
      selected attribute cell (-1, -1 for none). */
  class SpriteEditor {
    var spriteSet: seq<EditorSprite>
    var selectedSpriteIndex: int
    var selectedCharX: int
    var selectedCharY: int

    /** A cell of the selected sprite is selected. */
    predicate CellSelected()
      reads this
    {
      && 0 <= selectedSpriteIndex < |spriteSet|
      && 0 <= selectedCharX < spriteSet[selectedSpriteIndex].sprite.width
      && 0 <= selectedCharY < spriteSet[selectedSpriteIndex].sprite.height
    }

    predicate Valid()
      reads this
    {
      && -1 <= selectedSpriteIndex < |spriteSet|
      && (selectedCharX < 0 <==> selectedCharY < 0)
      && (selectedCharX >= 0 ==> CellSelected())
      && forall i :: 0 <= i < |spriteSet| ==> Fits(spriteSet[i])
    }

    /** The state before the initial `addSprite`. */
    constructor()
      ensures Valid()
      ensures spriteSet == [] && selectedSpriteIndex == -1 && selectedCharX == -1 && selectedCharY == -1
    {
      spriteSet := [];
      selectedSpriteIndex := -1;
      selectedCharX := -1;
      selectedCharY := -1;
    }

    /** `selectSprite`, corrected as in `StaleSelection`: the selected attribute cell is
        cleared, and an empty list leaves no sprite selected. */
    method SelectSprite(index: int)
      requires Valid()
      modifies this
      ensures Valid()
      ensures spriteSet == old(spriteSet) && selectedSpriteIndex == Select(|spriteSet|, index)
      ensures selectedCharX == -1 && selectedCharY == -1
    {
      selectedCharX := -1;
      selectedCharY := -1;
      if |spriteSet| == 0 {
        selectedSpriteIndex := -1;
        return;
      }
      var i := index;
      if i < 0 || i >= |spriteSet| {
        i := 0;
      }
      selectedSpriteIndex := i;
    }

    /** `pushHistoryState`: nothing happens when no sprite is selected. */
    method PushHistoryState()
      requires Valid()
      modifies this
      ensures Valid()
      ensures selectedSpriteIndex == old(selectedSpriteIndex)
      ensures selectedCharX == old(selectedCharX) && selectedCharY == old(selectedCharY)
      ensures old(selectedSpriteIndex) < 0 ==> spriteSet == old(spriteSet)
      ensures old(selectedSpriteIndex) >= 0 ==>
        spriteSet == old(spriteSet)[selectedSpriteIndex := Push(old(spriteSet)[selectedSpriteIndex])]
    {
      if selectedSpriteIndex < 0 {
        return;
      }
      var sprite := spriteSet[selectedSpriteIndex];
      HistoryKeepsFit(sprite);
      spriteSet := spriteSet[selectedSpriteIndex := Push(sprite)];
    }

    /** `undo` on the selected sprite. */
    method Undo()
      requires Valid()
      modifies this
      ensures Valid()
      ensures selectedSpriteIndex == old(selectedSpriteIndex)
      ensures selectedCharX == old(selectedCharX) && selectedCharY == old(selectedCharY)
      ensures old(selectedSpriteIndex) < 0 ==> spriteSet == old(spriteSet)
      ensures old(selectedSpriteIndex) >= 0 ==>
        spriteSet == old(spriteSet)[selectedSpriteIndex := History.Undo(old(spriteSet)[selectedSpriteIndex])]
    {
      if selectedSpriteIndex < 0 {
        return;
      }
      var sprite := spriteSet[selectedSpriteIndex];
      HistoryKeepsFit(sprite);
      StackSizes(sprite);
      spriteSet := spriteSet[selectedSpriteIndex := History.Undo(sprite)];
    }

    /** `redo` on the selected sprite. */
    method Redo()
      requires Valid()
      modifies this
      ensures Valid()
      ensures selectedSpriteIndex == old(selectedSpriteIndex)
      ensures selectedCharX == old(selectedCharX) && selectedCharY == old(selectedCharY)
      ensures old(selectedSpriteIndex) < 0 ==> spriteSet == old(spriteSet)
      ensures old(selectedSpriteIndex) >= 0 ==>
        spriteSet == old(spriteSet)[selectedSpriteIndex := History.Redo(old(spriteSet)[selectedSpriteIndex])]
    {
      if selectedSpriteIndex < 0 {
        return;
      }
      var sprite := spriteSet[selectedSpriteIndex];
      HistoryKeepsFit(sprite);
      StackSizes(sprite);
      spriteSet := spriteSet[selectedSpriteIndex := History.Redo(sprite)];
    }

    /** `addSprite`: a full list is left alone; otherwise the new sprite is selected. */
    method AddSprite()
      requires Valid()
      modifies this
      ensures Valid()
      ensures spriteSet == Added(old(spriteSet))
      ensures |old(spriteSet)| >= MaxSprites ==>
        selectedSpriteIndex == old(selectedSpriteIndex)
        && selectedCharX == old(selectedCharX) && selectedCharY == old(selectedCharY)
      ensures |old(spriteSet)| < MaxSprites ==>
        selectedSpriteIndex == |spriteSet| - 1 && selectedCharX == -1 && selectedCharY == -1
    {
      if |spriteSet| >= MaxSprites {
        return;
      }
      AddedBound(spriteSet);
      spriteSet := spriteSet + [NewEditorSprite(2, 2)];
      SelectSprite(|spriteSet| - 1);
    }

    /** `moveSpriteUp`: the selected sprite swaps places with the one before it and
      stays selected. */
    method MoveSpriteUp()
      requires Valid()
      modifies this
      ensures Valid()
      ensures old(selectedSpriteIndex) <= 0 ==>
        spriteSet == old(spriteSet) && selectedSpriteIndex == old(selectedSpriteIndex)
        && selectedCharX == old(selectedCharX) && selectedCharY == old(selectedCharY)
      ensures old(selectedSpriteIndex) > 0 ==>
        && spriteSet == Swap(old(spriteSet), old(selectedSpriteIndex) - 1, old(selectedSpriteIndex))
        && selectedSpriteIndex == old(selectedSpriteIndex) - 1
        && selectedCharX == -1 && selectedCharY == -1
    {
      if selectedSpriteIndex <= 0 {
        return;
      }
      spriteSet := Swap(spriteSet, selectedSpriteIndex - 1, selectedSpriteIndex);
      selectedCharX := -1;
      selectedCharY := -1;
      SelectSprite(selectedSpriteIndex - 1);
    }

    /** `moveSpriteDown`: the selected sprite swaps places with the one after it and
      stays selected. */
    method MoveSpriteDown()
      requires Valid()
      modifies this
      ensures Valid()
      ensures old(selectedSpriteIndex) < 0 || old(selectedSpriteIndex) >= |old(spriteSet)| - 1 ==>
        spriteSet == old(spriteSet) && selectedSpriteIndex == old(selectedSpriteIndex)
        && selectedCharX == old(selectedCharX) && selectedCharY == old(selectedCharY)
      ensures 0 <= old(selectedSpriteIndex) < |old(spriteSet)| - 1 ==>
        && spriteSet == Swap(old(spriteSet), old(selectedSpriteIndex) + 1, old(selectedSpriteIndex))
        && selectedSpriteIndex == old(selectedSpriteIndex) + 1
        && selectedCharX == -1 && selectedCharY == -1
    {
      if selectedSpriteIndex < 0 || selectedSpriteIndex >= |spriteSet| - 1 {
        return;
      }
      spriteSet := Swap(spriteSet, selectedSpriteIndex + 1, selectedSpriteIndex);
      selectedCharX := -1;
      selectedCharY := -1;
      SelectSprite(selectedSpriteIndex + 1);
    }

    /** A press on the canvas in attribute mode, at pixel (x, y) of the sprite: the
      history is pushed, then the character cell under the mouse is selected, or none
      when the mouse is outside the sprite. */
    method PickCell(x: nat, y: nat)
      requires Valid()
      modifies this
      ensures Valid()
      ensures old(selectedSpriteIndex) < 0 ==>
        spriteSet == old(spriteSet) && selectedSpriteIndex == old(selectedSpriteIndex)
        && selectedCharX == old(selectedCharX) && selectedCharY == old(selectedCharY)
      ensures old(selectedSpriteIndex) >= 0 ==>
        && selectedSpriteIndex == old(selectedSpriteIndex)
        && spriteSet == old(spriteSet)[selectedSpriteIndex := Push(old(spriteSet)[selectedSpriteIndex])]
        && var s := spriteSet[selectedSpriteIndex].sprite;
           if y / 8 < s.height && x / 8 < s.width
           then selectedCharX == x / 8 && selectedCharY == y / 8
           else selectedCharX == -1 && selectedCharY == -1
    {
      if selectedSpriteIndex < 0 {
        return;
      }
      PushHistoryState();
      var sprite := spriteSet[selectedSpriteIndex].sprite;
      selectedCharX := x / 8;
      selectedCharY := y / 8;
      if selectedCharY >= sprite.height || selectedCharX >= sprite.width {
        selectedCharX := -1;
        selectedCharY := -1;
      }
    }

    /** A press on the canvas in pixel mode, at pixel (x, y): the history is pushed,
      then the pixel under the mouse, if it lies inside the sprite, is inverted. */
    method PaintPixel(x: nat, y: nat)
      requires Valid()
      modifies this
      ensures Valid()
      ensures selectedSpriteIndex == old(selectedSpriteIndex)
      ensures selectedCharX == old(selectedCharX) && selectedCharY == old(selectedCharY)
      ensures old(selectedSpriteIndex) < 0 ==> spriteSet == old(spriteSet)
      ensures old(selectedSpriteIndex) >= 0 ==>
        var e := Push(old(spriteSet)[selectedSpriteIndex]);
        spriteSet == old(spriteSet)[selectedSpriteIndex :=
          if y < |e.sprite.pixelData| && x < |e.sprite.pixelData[y]|
          then EditorSprite(SetPixel(e.sprite, x, y, 1 - e.sprite.pixelData[y][x]), e.history)
          else e]
    {
      if selectedSpriteIndex < 0 {
        return;
      }
      PushHistoryState();
      var e := spriteSet[selectedSpriteIndex];
      var sprite := e.sprite;
      if y >= sprite.height * 8 || x >= sprite.width * 8 {
        return;
      }
      var drawingValue := 1 - sprite.pixelData[y][x];
      var edited := SetPixel(sprite, x, y, drawingValue);
      EditKeepsFit(e, edited);
      spriteSet := spriteSet[selectedSpriteIndex := EditorSprite(edited, e.history)];
    }

    /** `handleAttributeChange(bit)`: with a cell selected, the history is pushed and bit
      `bit` of the cell's attribute is inverted. */
    method HandleAttributeChange(bit: nat)
      requires Valid() && bit < 8
      modifies this
      ensures Valid()
      ensures selectedSpriteIndex == old(selectedSpriteIndex)
      ensures selectedCharX == old(selectedCharX) && selectedCharY == old(selectedCharY)
      ensures old(selectedCharX) < 0 ==> spriteSet == old(spriteSet)
      ensures old(selectedCharX) >= 0 ==>
        var e := Push(old(spriteSet)[selectedSpriteIndex]);
        var attr := e.sprite.attributeData[selectedCharY][selectedCharX];
        spriteSet == old(spriteSet)[selectedSpriteIndex :=
          EditorSprite(SetAttr(e.sprite, selectedCharX, selectedCharY, ToggleBit(attr, bit)), e.history)]
    {
      if selectedCharX < 0 {
        return;
      }
      PushHistoryState();
      var e := spriteSet[selectedSpriteIndex];
      var attr := e.sprite.attributeData[selectedCharY][selectedCharX];
      attr := ToggleBit(attr, bit);
      var edited := SetAttr(e.sprite, selectedCharX, selectedCharY, attr);
      EditKeepsFit(e, edited);
      spriteSet := spriteSet[selectedSpriteIndex := EditorSprite(edited, e.history)];
    }

    /** Choosing a code block in the load dialog: its records replace the sprite list,
      each with an empty history, and the first sprite is selected. */
    method LoadBlock(data: seq<byte>)
      requires Valid()
      modifies this
      ensures Valid()
      ensures spriteSet == Loaded(ParseFrom(data, 0))
      ensures selectedSpriteIndex == (if spriteSet == [] then -1 else 0)
      ensures selectedCharX == -1 && selectedCharY == -1
    {
      var newSpriteSet := ParseOption2Data(data);
      ParseWellFormed(data, 0);
      LoadedSprites(newSpriteSet);
      spriteSet := Loaded(newSpriteSet);
      selectedSpriteIndex := -1;
      selectedCharX := -1;
      selectedCharY := -1;
      SelectSprite(0);
    }
  }

  /** A pixel press followed by `undo` gives the sprite back as it was before the press;
      the redo stack then holds the painted state. */
  lemma PaintThenUndo(e: EditorSprite, x: nat, y: nat)
    requires Fits(e) && y < |e.sprite.pixelData| && x < |e.sprite.pixelData[y]|
    ensures var p := Push(e);
      var painted := SetPixel(p.sprite, x, y, 1 - p.sprite.pixelData[y][x]);
      History.Undo(EditorSprite(painted, p.history))
        == EditorSprite(e.sprite, Stacks(e.history.undoStack, [Capture(painted)]))
  {
    var p := Push(e);
    PushEditUndo(e, SetPixel(p.sprite, x, y, 1 - p.sprite.pixelData[y][x]));
  }

  /** An attribute change followed by `undo` gives the sprite back as it was before it. */
  lemma ToggleThenUndo(e: EditorSprite, cx: nat, cy: nat, bit: nat)
    requires Fits(e) && cy < e.sprite.height && cx < e.sprite.width && bit < 8
    ensures var p := Push(e);
      var toggled := SetAttr(p.sprite, cx, cy, ToggleBit(p.sprite.attributeData[cy][cx], bit));
      History.Undo(EditorSprite(toggled, p.history))
        == EditorSprite(e.sprite, Stacks(e.history.undoStack, [Capture(toggled)]))
  {
    var p := Push(e);
    PushEditUndo(e, SetAttr(p.sprite, cx, cy, ToggleBit(p.sprite.attributeData[cy][cx], bit)));
  }
}
