/**
 * The render synchroniser: it turns a node model into one Pixi `Graphics` primitive under the
 * viewport and re-syncs it in full on every update. A `Graphics` object is modelled by the
 * trace of draw commands issued on it; Pixi itself (textures, colours, rasterisation) is not
 * part of this model.
 */
module Render {
  import opened Wrappers

  /** A gl-matrix `mat3`: nine entries in column-major order. */
  type Mat3 = m: seq<real> | |m| == 9 witness [1.0, 0.0, 0.0, 0.0, 1.0, 0.0, 0.0, 0.0, 1.0]

  /** Pixi's 2-D affine `Matrix(a, b, c, d, tx, ty)`. */
  datatype Affine = Affine(a: real, b: real, c: real, d: real, tx: real, ty: real)

  /** A colour as four channels: r, g, b on the 0..255 scale, a as the model stores it. */
  datatype Rgba = Rgba(r: real, g: real, b: real, a: real)

  /** A paint descriptor: solid colour with an opacity multiplier, or an image reference. */
  datatype Paint = Solid(color: Rgba, opacity: real) | Image(image: string)

  /** What the synchroniser reads from a node model. A missing paint list is empty. */
  datatype NodeModel = NodeModel(
    kind: string,
    x: real, y: real, w: real, h: real,
    at: Mat3,
    fillPaints: seq<Paint>,
    strokeWeight: real,
    strokePaints: seq<Paint>)

  /** The calls made on a `Graphics` object, in the order made. */
  datatype DrawCommand =
    | Clear
    | Rect(x: real, y: real, w: real, h: real)
    | SetMatrix(m: Affine)
    | FillTexture(image: string)
    | FillColor(color: Rgba)
    | Stroke(width: real, color: Rgba)

  /** Node types with no visual representation. */
  predicate IsStructural(kind: string)
  {
    kind == "Document" || kind == "Page"
  }

  /** The mat3 to Pixi conversion: entries 0, 1, 3, 4, 6, 7 become a, b, c, d, tx, ty. */
  function ToPixiMatrix(m: Mat3): Affine
  {
    Affine(m[0], m[1], m[3], m[4], m[6], m[7])
  }

  /** A column-major mat3 applied to the homogeneous point (x, y, 1). */
  function Transform3(m: Mat3, x: real, y: real): (real, real, real)
  {
    (m[0] * x + m[3] * y + m[6], m[1] * x + m[4] * y + m[7], m[2] * x + m[5] * y + m[8])
  }

  /** Pixi's `Matrix.apply`. */
  function ApplyAffine(t: Affine, x: real, y: real): (real, real)
  {
    (t.a * x + t.c * y + t.tx, t.b * x + t.d * y + t.ty)
  }

  /** `processColor`: r, g, b scaled from 0..255 to 0..1; alpha is `a * opacity`, not divided. */
  function ProcessColor(color: Rgba, opacity: real): Rgba
  {
    Rgba(color.r / 255.0, color.g / 255.0, color.b / 255.0, color.a * opacity)
  }

  /** The fill call for the first fill paint: a texture for an image, else a processed colour. */
  function FillCommand(p: Paint): DrawCommand
  {
    match p
    case Image(img) => FillTexture(img)
    case Solid(c, o) => FillColor(ProcessColor(c, o))
  }

  /** `processColor` on an image stroke paint reads the colour of a paint that has none and
      throws, ending the sync after the fill. */
  predicate SyncThrows(m: NodeModel)
  {
    |m.strokePaints| > 0 && m.strokePaints[0].Image?
  }

  /** The commands one full sync issues. */
  function SyncTrace(m: NodeModel): seq<DrawCommand>
  {
    [Clear, Rect(0.0, 0.0, m.w, m.h), SetMatrix(ToPixiMatrix(m.at))]
    + (if |m.fillPaints| > 0 then [FillCommand(m.fillPaints[0])] else [])
    + (if |m.strokePaints| > 0 && m.strokePaints[0].Solid?
       then [Stroke(m.strokeWeight, ProcessColor(m.strokePaints[0].color, m.strokePaints[0].opacity))]
       else [])
  }

  /** A Pixi `Graphics` object, seen through the commands issued on it. */
  class Graphics {
    var commands: seq<DrawCommand>

    constructor ()
      ensures commands == []
    {
      commands := [];
    }

    method Draw(c: DrawCommand)
      modifies this
      ensures commands == old(commands) + [c]
    {
      commands := commands + [c];
    }
  }

  /** The handle the synchroniser hands out: one graphics object and its draw order. */
  class RenderNode {
    const graphics: Graphics
    var order: Option<int>

    constructor (g: Graphics)
      ensures graphics == g && order == None
    {
      graphics := g;
      order := None;
    }

    /** Records the draw order; the graphics object is not touched. */
    method SetRenderOrder(o: int)
      modifies this
      ensures order == Some(o)
    {
      order := Some(o);
    }
  }

  class WebGLRender {
    /** The viewport container's children, in the order added. */
    var viewport: seq<Graphics>

    constructor ()
      ensures viewport == []
    {
      viewport := [];
    }

    /** `createEmptyNode`: a new graphics object, added to the viewport and wrapped. */
    method CreateEmptyNode() returns (node: RenderNode)
      modifies this
      ensures fresh(node) && fresh(node.graphics) && node.order == None
      ensures node.graphics.commands == []
      ensures viewport == old(viewport) + [node.graphics]
    {
      var graphics := new Graphics();
      viewport := viewport + [graphics];
      node := new RenderNode(graphics);
    }

    /** `createRenderNode`: nothing for Document and Page; otherwise exactly one new graphics
        child of the viewport, fully synced. `ok` is false when the sync throws. */
    method CreateRenderNode(data: NodeModel) returns (node: Option<RenderNode>, ok: bool)
      modifies this
      ensures IsStructural(data.kind) ==> node == None && ok && viewport == old(viewport)
      ensures !IsStructural(data.kind) ==>
                && node.Some? && fresh(node.value) && fresh(node.value.graphics)
                && viewport == old(viewport) + [node.value.graphics]
                && node.value.graphics.commands == SyncTrace(data)
                && node.value.order == None
                && ok == !SyncThrows(data)
    {
      if IsStructural(data.kind) {
        return None, true;
      }
      var graphics := CreateEmptyNode();
      ok := UpdateRenderNode(graphics, data);
      node := Some(graphics);
    }

    /** `updateMatrix`: the same conversion as a full sync uses. */
    method UpdateMatrix(graphics: Graphics, at: Mat3)
      modifies graphics
      ensures graphics.commands == old(graphics.commands) + [SetMatrix(ToPixiMatrix(at))]
    {
      graphics.Draw(SetMatrix(ToPixiMatrix(at)));
    }

    /** `setRenderOrder`: forwarded to the handle; no viewport child is added. */
    method SetRenderOrder(node: RenderNode, order: int)
      modifies node
      ensures node.order == Some(order)
    {
      node.SetRenderOrder(order);
    }

    /** `updateRenderNode`: clear, the local-origin rectangle, the transform, then the first
        fill paint if any, then the first stroke paint if any. */
    method UpdateRenderNode(node: RenderNode, props: NodeModel) returns (ok: bool)
      modifies node.graphics
      ensures node.graphics.commands == old(node.graphics.commands) + SyncTrace(props)
      ensures ok == !SyncThrows(props)
    {
      var graphics := node.graphics;
      graphics.Draw(Clear);
      graphics.Draw(Rect(0.0, 0.0, props.w, props.h));
      graphics.Draw(SetMatrix(ToPixiMatrix(props.at)));
      var fillPaints := props.fillPaints;
      if |fillPaints| > 0 {
        var fill := fillPaints[0];
        match fill {
          case Image(img) => graphics.Draw(FillTexture(img));
          case Solid(c, o) => graphics.Draw(FillColor(ProcessColor(c, o)));
        }
      }
      var strokes := props.strokePaints;
      ok := true;
      if |strokes| > 0 {
        var width := props.strokeWeight;
        var stroke := strokes[0];
        if stroke.Image? {
          ok := false;
          return;
        }
        graphics.Draw(Stroke(width, ProcessColor(stroke.color, stroke.opacity)));
      }
    }
  }

  // ---------------------------------------------------------------------------------------
  // Lemmas

  /** The Pixi matrix moves every point as the mat3 does (first two homogeneous coordinates). */
  lemma PixiMatrixAgrees(m: Mat3, x: real, y: real)
    ensures ApplyAffine(ToPixiMatrix(m), x, y) == (Transform3(m, x, y).0, Transform3(m, x, y).1)
  {
    var t := ToPixiMatrix(m);
    assert t == Affine(m[0], m[1], m[3], m[4], m[6], m[7]);
    assert ApplyAffine(t, x, y).0 == m[0] * x + m[3] * y + m[6];
    assert ApplyAffine(t, x, y).1 == m[1] * x + m[4] * y + m[7];
  }

  /** Entries 2, 5 and 8 are dropped: two matrices convert alike iff the other six agree. */
  lemma PixiMatrixDropsLastRow(m: Mat3, n: Mat3)
    ensures ToPixiMatrix(m) == ToPixiMatrix(n) <==>
              m[0] == n[0] && m[1] == n[1] && m[3] == n[3] && m[4] == n[4] && m[6] == n[6] && m[7] == n[7]
  {
  }

  /** Channels on the 0..255 scale land in [0, 1]; alpha and opacity in [0, 1] give an alpha
      in [0, 1]. */
  lemma ProcessColorRange(c: Rgba, opacity: real)
    requires 0.0 <= c.r <= 255.0 && 0.0 <= c.g <= 255.0 && 0.0 <= c.b <= 255.0
    requires 0.0 <= c.a <= 1.0 && 0.0 <= opacity <= 1.0
    ensures var p := ProcessColor(c, opacity);
            0.0 <= p.r <= 1.0 && 0.0 <= p.g <= 1.0 && 0.0 <= p.b <= 1.0 && 0.0 <= p.a <= 1.0
  {
    ProductInUnit(c.a, opacity);
  }

  lemma ProductInUnit(a: real, b: real)
    requires 0.0 <= a <= 1.0 && 0.0 <= b <= 1.0
    ensures 0.0 <= a * b <= 1.0
  {
    MulNonneg(a, b);
    MulNonneg(1.0 - a, b);
    assert (1.0 - a) * b == b - a * b;
  }

  lemma MulNonneg(x: real, y: real)
    requires 0.0 <= x && 0.0 <= y
    ensures 0.0 <= x * y
  {
  }

  /** The colour channels are recovered by scaling back; alpha is the plain product. */
  lemma ProcessColorInverse(c: Rgba, opacity: real)
    ensures var p := ProcessColor(c, opacity);
            p.r * 255.0 == c.r && p.g * 255.0 == c.g && p.b * 255.0 == c.b && p.a == c.a * opacity
  {
  }

  /** The order of a sync: Clear, Rect, SetMatrix, then a fill exactly when there is a fill
      paint, then a stroke exactly when the first stroke paint is solid. */
  lemma SyncOrder(m: NodeModel)
    ensures var s := SyncTrace(m);
      && 3 <= |s| <= 5
      && s[0] == Clear && s[1] == Rect(0.0, 0.0, m.w, m.h) && s[2] == SetMatrix(ToPixiMatrix(m.at))
      && (|m.fillPaints| > 0 <==> (|s| > 3 && (s[3].FillColor? || s[3].FillTexture?)))
      && (|m.fillPaints| > 0 ==> s[3] == FillCommand(m.fillPaints[0]))
      && ((|m.strokePaints| > 0 && m.strokePaints[0].Solid?) <==> s[|s| - 1].Stroke?)
  {
  }

  /** The node's position never enters the geometry: the rectangle is drawn at the local origin
      and the matrix alone places it. */
  lemma SyncIgnoresPosition(m: NodeModel, x: real, y: real)
    ensures SyncTrace(m.(x := x, y := y)) == SyncTrace(m)
  {
  }

  /** Only the first fill paint and the first stroke paint are used: paints appended after an
      existing first paint change nothing (an empty list stays empty). */
  lemma SyncUsesFirstPaints(m: NodeModel, moreFills: seq<Paint>, moreStrokes: seq<Paint>)
    requires |m.fillPaints| > 0 || moreFills == []
    requires |m.strokePaints| > 0 || moreStrokes == []
    ensures SyncTrace(m.(fillPaints := m.fillPaints + moreFills, strokePaints := m.strokePaints + moreStrokes))
            == SyncTrace(m)
  {
  }

  /** A 100 by 50 rectangle at (10, 10), solid red at full alpha and opacity: the rectangle is
      (0, 0, 100, 50) and the fill colour is (1, 0, 0, 1). */
  lemma SolidRedRectangle(at: Mat3, m: NodeModel)
    requires m == NodeModel("Rectangle", 10.0, 10.0, 100.0, 50.0, at,
                            [Solid(Rgba(255.0, 0.0, 0.0, 1.0), 1.0)], 0.0, [])
    ensures SyncTrace(m) == [Clear, Rect(0.0, 0.0, 100.0, 50.0), SetMatrix(ToPixiMatrix(at)),
                             FillColor(Rgba(1.0, 0.0, 0.0, 1.0))]
  {
    assert ProcessColor(Rgba(255.0, 0.0, 0.0, 1.0), 1.0) == Rgba(1.0, 0.0, 0.0, 1.0);
  }
}
