/**
 * The keypad buttons of main.py: a fixed 125x125 rounded rectangle with a centred label,
 * the hover and click tests, and the twelve-button layout table of `Window.__init__`.
 */
module Buttons {
  import opened Geometry

  const ButtonSize: real := 125.0

  /** The backing panel `draw_contents` paints behind the buttons. */
  const Panel := Rect(50.0, 75.0, 650.0, 1050.0)

  /** The parts of a `Button` the keypad's decisions depend on; colours and the font handle are left out. */
  datatype Button = Button(position: Vec2, text: string, width: real, height: real, fontSize: nat)

  /** `Button(pos, text, font)`: every button is 125x125 with a 70-point label. */
  function NewButton(pos: Vec2, text: string): (b: Button)
    ensures Bounds(b) == Rect(pos.x, pos.y, ButtonSize, ButtonSize)
    ensures b.text == text && b.fontSize == 70
  {
    Button(pos, text, ButtonSize, ButtonSize, 70)
  }

  /** The rectangle the button is drawn in and hit-tested against: it spans the button's extent from its top-left corner. */
  function Bounds(b: Button): (r: Rect)
    ensures b.width > 0.0 && b.height > 0.0 ==> Contains(r, b.position)
    ensures Centre(r) == Vec2(b.position.x + b.width / 2.0, b.position.y + b.height / 2.0)
  {
    Rect(b.position.x, b.position.y, b.width, b.height)
  }

  /** `is_hovered`: the (already transformed) mouse lies in the button's rectangle. */
  function IsHovered(b: Button, mouse: Vec2): (h: bool)
    ensures h <==> 0.0 <= mouse.x - b.position.x < b.width && 0.0 <= mouse.y - b.position.y < b.height
  {
    Contains(Bounds(b), mouse)
  }

  /** `is_clicked`: the left button went down this frame while the mouse is over the button. */
  function IsClicked(b: Button, mouse: Vec2, leftPressed: bool): (c: bool)
    ensures c ==> IsHovered(b, mouse)
    ensures c <==> leftPressed && IsHovered(b, mouse)
  {
    leftPressed && IsHovered(b, mouse)
  }

  datatype Fill = HoveredFill | IdleFill

  /** The fill `draw` picks: the hovered colour exactly when the button is hovered. */
  function DrawFill(b: Button, mouse: Vec2): (f: Fill)
    ensures f == HoveredFill <==> IsHovered(b, mouse)
  {
    if IsHovered(b, mouse) then HoveredFill else IdleFill
  }

  /**
   * Where `draw` places the label, given the measured text size: the label box is
   * centred on the button, and a label no larger than the button stays inside it.
   */
  function LabelOrigin(b: Button, textSize: Vec2): (o: Vec2)
    ensures Centre(Rect(o.x, o.y, textSize.x, textSize.y)) == Centre(Bounds(b))
    ensures 0.0 <= textSize.x <= b.width && 0.0 <= textSize.y <= b.height ==>
              Within(Rect(o.x, o.y, textSize.x, textSize.y), Bounds(b))
  {
    Vec2(b.position.x + (b.width - textSize.x) / 2.0, b.position.y + (b.height - textSize.y) / 2.0)
  }

  /** The button table of `Window.__init__`, in its insertion (and drawing) order: twelve one-character keys. */
  function Layout(): (l: seq<(string, Button)>)
    ensures |l| == 12
    ensures forall i | 0 <= i < |l| :: |l[i].1.text| == 1 && l[i].1.fontSize == 70
  {
    [ ("button1", NewButton(Vec2(88.0, 400.0), "1")),
      ("button2", NewButton(Vec2(238.0, 400.0), "2")),
      ("button3", NewButton(Vec2(388.0, 400.0), "3")),
      ("button4", NewButton(Vec2(88.0, 550.0), "4")),
      ("button5", NewButton(Vec2(238.0, 550.0), "5")),
      ("button6", NewButton(Vec2(388.0, 550.0), "6")),
      ("button7", NewButton(Vec2(88.0, 700.0), "7")),
      ("button8", NewButton(Vec2(238.0, 700.0), "8")),
      ("button9", NewButton(Vec2(388.0, 700.0), "9")),
      ("button10", NewButton(Vec2(238.0, 850.0), "0")),
      ("button11", NewButton(Vec2(538.0, 400.0), "+")),
      ("button12", NewButton(Vec2(538.0, 550.0), "-")) ]
  }

  /** A 125x125 button on the table's grid: columns 150 apart from x = 88, rows 150 apart from y = 400. */
  predicate OnGrid(b: Button)
  {
    b.width == ButtonSize && b.height == ButtonSize &&
    b.position.x in {88.0, 238.0, 388.0, 538.0} &&
    b.position.y in {400.0, 550.0, 700.0, 850.0}
  }

  /** Every button of the table is on the grid, and no two share a key or a grid cell. */
  lemma LayoutOnGrid()
    ensures |Layout()| == 12
    ensures forall i | 0 <= i < |Layout()| :: OnGrid(Layout()[i].1)
    ensures forall i, j | 0 <= i < j < |Layout()| ::
              Layout()[i].0 != Layout()[j].0 && Layout()[i].1.position != Layout()[j].1.position
  {
  }

  /** Grid buttons in different cells are at least 150 apart on some axis, so they do not overlap. */
  lemma GridDisjoint(a: Button, b: Button)
    requires OnGrid(a) && OnGrid(b) && a.position != b.position
    ensures Disjoint(Bounds(a), Bounds(b))
  {
    if a.position.x != b.position.x {
      assert a.position.x + 150.0 <= b.position.x || b.position.x + 150.0 <= a.position.x;
    } else {
      assert a.position.y + 150.0 <= b.position.y || b.position.y + 150.0 <= a.position.y;
    }
  }

  /** The twelve buttons are pairwise disjoint and all lie on the backing panel. */
  lemma LayoutGeometry()
    ensures forall i | 0 <= i < |Layout()| :: Within(Bounds(Layout()[i].1), Panel)
    ensures forall i, j | 0 <= i < |Layout()| && 0 <= j < |Layout()| && i != j ::
              Disjoint(Bounds(Layout()[i].1), Bounds(Layout()[j].1))
  {
    LayoutOnGrid();
    var l := Layout();
    forall i, j | 0 <= i < |l| && 0 <= j < |l| && i != j
      ensures Disjoint(Bounds(l[i].1), Bounds(l[j].1))
    {
      if i < j { GridDisjoint(l[i].1, l[j].1); } else { GridDisjoint(l[j].1, l[i].1); }
    }
  }

  /** The keys of the table whose buttons are hovered at `mouse`. */
  function HoveredKeys(mouse: Vec2): set<string>
  {
    set i | 0 <= i < |Layout()| && IsHovered(Layout()[i].1, mouse) :: Layout()[i].0
  }

  /**
   * At any mouse position at most one button of the table is hovered, so `draw_contents`
   * paints at most one button with the hovered fill and at most one click is reported;
   * a hovered mouse is over the backing panel.
   */
  lemma AtMostOneHovered(mouse: Vec2, leftPressed: bool)
    ensures |HoveredKeys(mouse)| <= 1
    ensures HoveredKeys(mouse) != {} ==> Contains(Panel, mouse)
    ensures forall i, j | 0 <= i < |Layout()| && 0 <= j < |Layout()| ::
              DrawFill(Layout()[i].1, mouse) == HoveredFill && DrawFill(Layout()[j].1, mouse) == HoveredFill ==> i == j
    ensures forall i, j | 0 <= i < |Layout()| && 0 <= j < |Layout()| ::
              IsClicked(Layout()[i].1, mouse, leftPressed) && IsClicked(Layout()[j].1, mouse, leftPressed) ==> i == j
  {
    LayoutGeometry();
    var l := Layout();
    forall i, j | 0 <= i < |l| && 0 <= j < |l| && IsHovered(l[i].1, mouse) && IsHovered(l[j].1, mouse)
      ensures i == j
    {
      if i != j { DisjointNoCommonPoint(Bounds(l[i].1), Bounds(l[j].1), mouse); }
    }
    var keys := HoveredKeys(mouse);
    if keys != {} {
      var k :| k in keys;
      var i :| 0 <= i < |l| && IsHovered(l[i].1, mouse) && l[i].0 == k;
      ContainsWithin(Bounds(l[i].1), Panel, mouse);
      assert keys <= {k};
      assert |keys| <= |{k}| by { SubsetCard(keys, {k}); }
    }
  }

  lemma SubsetCard<T>(a: set<T>, b: set<T>)
    requires a <= b
    ensures |a| <= |b|
  {
    if a != {} {
      var x :| x in a;
      SubsetCard(a - {x}, b - {x});
    }
  }
}
