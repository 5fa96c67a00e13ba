/** The text state of layout-mode extraction,
    `pypdf/_text_extraction/_layout_mode/_text_state_manager.py` and
    `_text_state_params.py`: a stack of transformation frames pushed by
    `cm`, `Tm` and text-rendering operators and popped by `Q`, the text
    state parameters of section 9.3 of ISO 32000-1, and the position and
    displacement of one shown string. */
module TextState {
  import opened PyBase
  import opened Transformations
  import opened LayoutFont

  // ---------------------------------------------------------------------
  // The transform stack
  // ---------------------------------------------------------------------

  /** One map of the `ChainMap`: a matrix with its `is_text` and
      `is_render` tags, or the empty map a `ChainMap` of nothing holds. */
  datatype Frame = Frame(m: Matrix, isText: bool, isRender: bool) | Blank

  /** `TextStateManager`.  `maps` is the chain newest first, as
      `ChainMap.maps` lists it; `qDepth` and `qQueue` are the `q` nesting
      bookkeeping (`qQueue` a `Counter`: an absent key counts 0). */
  datatype Manager = Manager(maps: seq<Frame>, qQueue: map<int, int>, qDepth: seq<int>,
                             tc: real, tw: real, tz: real, tl: real, ts: real,
                             font: Option<Font>, fontSize: real)

  /** What the methods keep: a chain always holds a map, and the nesting
      list starts at level 0 and never empties. */
  predicate Valid(m: Manager)
  {
    |m.maps| >= 1 && |m.qDepth| >= 1 && m.qDepth[0] == 0
  }

  /** A positional argument or its default. */
  function Arg(args: seq<real>, i: nat, default: real): real
  {
    if i < |args| then args[i] else default
  }

  /** `new_transform(*args)`: six matrix entries defaulting to the
      identity's, then `is_text` and `is_render`, a non-zero number being
      true; a ninth argument is a TypeError. */
  function NewTransform(args: seq<real>): (r: Result<Frame>)
    ensures r.Ok? <==> |args| <= 8
    ensures r.Err? ==> r.exc == TypeError
    ensures r.Ok? ==> r.value.Frame? && (r.value.isText <==> |args| > 6 && args[6] != 0.0)
                      && (r.value.isRender <==> |args| > 7 && args[7] != 0.0)
    ensures r.Ok? && |args| >= 6 ==> r.value.m == Matrix(args[0], args[1], args[2], args[3], args[4], args[5])
    ensures args == [] ==> r == Ok(Frame(Identity, false, false))
  {
    if |args| > 8 then Err(TypeError)
    else Ok(Frame(Matrix(Arg(args, 0, 1.0), Arg(args, 1, 0.0), Arg(args, 2, 0.0), Arg(args, 3, 1.0),
                         Arg(args, 4, 0.0), Arg(args, 5, 0.0)),
                  |args| > 6 && args[6] != 0.0, |args| > 7 && args[7] != 0.0))
  }

  /** `TextStateManager()`: the identity frame, no `q` open, horizontal
      scaling 100 and the other parameters 0, no font. */
  function Init(): (r: Manager)
    ensures Valid(r) && r.maps == [Frame(Identity, false, false)]
    ensures r.qDepth == [0] && r.qQueue == map[]
    ensures r.tz == 100.0 && r.tc == 0.0 && r.tw == 0.0 && r.tl == 0.0 && r.ts == 0.0
    ensures r.font.None? && r.fontSize == 0.0
  {
    Manager([NewTransform([]).value], map[], [0], 0.0, 0.0, 100.0, 0.0, 0.0, None, 0.0)
  }

  /** The value `set_state_param` receives: a number or an operand list. */
  datatype ParamValue = Scalar(v: real) | List(items: seq<real>)

  /** `set_state_param(op, value)`: a list stands for its first element
      (IndexError when empty); `Tc`, `Tw`, `Tz`, `TL` and `Ts` set their
      parameter and any other operator changes nothing. */
  function SetStateParam(m: Manager, op: string, value: ParamValue): (r: Result<Manager>)
    ensures r.Ok? <==> !(value.List? && value.items == [])
    ensures r.Err? ==> r.exc == IndexError
    ensures r.Ok? ==>
              var v := if value.Scalar? then value.v else value.items[0];
              r.value == (if op == "Tc" then m.(tc := v) else if op == "Tw" then m.(tw := v)
                          else if op == "Tz" then m.(tz := v) else if op == "TL" then m.(tl := v)
                          else if op == "Ts" then m.(ts := v) else m)
  {
    var v :- match value
             case Scalar(x) => Ok(x)
             case List(items) => if items == [] then Err(IndexError) else Ok(items[0]);
    Ok(if op == "Tc" then m.(tc := v) else if op == "Tw" then m.(tw := v)
       else if op == "Tz" then m.(tz := v) else if op == "TL" then m.(tl := v)
       else if op == "Ts" then m.(ts := v) else m)
  }

  /** Setting a parameter changes neither the stack nor the font, and reads
      back as the value set. */
  lemma SetStateParamFrame(m: Manager, op: string, v: real)
    ensures var r := SetStateParam(m, op, Scalar(v)).value;
            r.maps == m.maps && r.qDepth == m.qDepth && r.font == m.font && r.fontSize == m.fontSize
            && (op == "Tc" ==> r.tc == v) && (op == "Tw" ==> r.tw == v) && (op == "Tz" ==> r.tz == v)
            && (op == "TL" ==> r.tl == v) && (op == "Ts" ==> r.ts == v)
            && (op !in {"Tc", "Tw", "Tz", "TL", "Ts"} ==> r == m)
  {
  }

  /** `set_font(font, size)`. */
  function SetFont(m: Manager, font: Font, size: real): (r: Manager)
    ensures r.font == Some(font) && r.fontSize == size
    ensures r.(font := m.font, fontSize := m.fontSize) == m
  {
    m.(font := Some(font), fontSize := size)
  }

  /** Pushing a frame onto the chain (`new_child`). */
  function Push(m: Manager, f: Frame): (r: Manager)
  {
    m.(maps := [f] + m.maps)
  }

  /** `add_cm(*args)`. */
  function AddCm(m: Manager, args: seq<real>): (r: Result<Manager>)
    ensures r.Ok? <==> |args| <= 8
    ensures r.Err? ==> r.exc == TypeError
    ensures r.Ok? ==> |r.value.maps| == |m.maps| + 1 && r.value.maps[1..] == m.maps
    ensures r.Ok? ==> r.value.(maps := m.maps) == m
  {
    var f :- NewTransform(args);
    Ok(Push(m, f))
  }

  /** `_complete_matrix`: two operands `e f` become `1 0 0 1 e f`. */
  function CompleteMatrix(operands: seq<real>): (r: seq<real>)
    ensures |operands| != 2 ==> r == operands
    ensures |operands| == 2 ==> |r| == 6 && Matrix(r[0], r[1], r[2], r[3], r[4], r[5]) == Matrix(1.0, 0.0, 0.0, 1.0, operands[0], operands[1])
  {
    if |operands| == 2 then [1.0, 0.0, 0.0, 1.0, operands[0], operands[1]] else operands
  }

  /** A frame with the given tags after the completed operands; seven or
      more operands collide with the tag given by keyword, a TypeError. */
  function TaggedTransform(operands: seq<real>, isRender: bool): (r: Result<Frame>)
    ensures r.Ok? <==> |CompleteMatrix(operands)| <= 6
    ensures r.Ok? ==> r.value.Frame? && r.value.isText && r.value.isRender == isRender
  {
    var ops := CompleteMatrix(operands);
    if |ops| > 6 then Err(TypeError)
    else
      var f := NewTransform(ops).value;
      Ok(f.(isText := true, isRender := isRender))
  }

  /** `add_tm(operands)`: a text matrix frame. */
  function AddTm(m: Manager, operands: seq<real>): (r: Result<Manager>)
    ensures r.Ok? <==> |operands| <= 6
    ensures r.Ok? ==> |r.value.maps| == |m.maps| + 1 && r.value.maps[1..] == m.maps && r.value.maps[0].Frame?
                      && r.value.maps[0].isText && !r.value.maps[0].isRender
    ensures r.Ok? ==> r.value.(maps := m.maps) == m
    ensures |operands| == 2 ==> r.Ok? && r.value.maps[0].m == Matrix(1.0, 0.0, 0.0, 1.0, operands[0], operands[1])
  {
    var f :- TaggedTransform(operands, false);
    Ok(Push(m, f))
  }

  /** `add_trm(operands)`: a text rendering frame, tagged both ways. */
  function AddTrm(m: Manager, operands: seq<real>): (r: Result<Manager>)
    ensures r.Ok? <==> |operands| <= 6
    ensures r.Ok? ==> |r.value.maps| == |m.maps| + 1 && r.value.maps[1..] == m.maps && r.value.maps[0].Frame?
                      && r.value.maps[0].isText && r.value.maps[0].isRender
    ensures r.Ok? ==> r.value.(maps := m.maps) == m
  {
    var f :- TaggedTransform(operands, true);
    Ok(Push(m, f))
  }

  /** `ChainMap(*maps)`: no maps gives the chain of one empty map. */
  function Chain(maps: seq<Frame>): (r: seq<Frame>)
    ensures |r| >= 1
  {
    if maps == [] then [Blank] else maps
  }

  /** The frames that survive a filter, in order. */
  function Keep(maps: seq<Frame>, drop: Frame -> bool): (r: seq<Frame>)
    ensures |r| <= |maps|
    ensures forall i :: 0 <= i < |r| ==> r[i] in maps && !drop(r[i])
    ensures forall f :: f in maps && !drop(f) ==> f in r
  {
    if maps == [] then [] else (if drop(maps[0]) then [] else [maps[0]]) + Keep(maps[1..], drop)
  }

  /** `t.get('is_text', False) or t.get('is_render', False)`. */
  predicate TextTagged(f: Frame) { f.Frame? && (f.isText || f.isRender) }

  /** `t.get('is_render', False)`. */
  predicate RenderTagged(f: Frame) { f.Frame? && f.isRender }

  /** `reset_tm`: drop every frame tagged text or render. */
  function ResetTm(m: Manager): (r: Manager)
    ensures forall i :: 0 <= i < |r.maps| ==> !(r.maps[i].Frame? && (r.maps[i].isText || r.maps[i].isRender))
    ensures forall f :: f in m.maps && !(f.Frame? && (f.isText || f.isRender)) ==> f in r.maps
    ensures Valid(m) ==> Valid(r)
  {
    m.(maps := Chain(Keep(m.maps, TextTagged)))
  }

  /** `reset_trm`: drop every frame tagged render. */
  function ResetTrm(m: Manager): (r: Manager)
    ensures forall i :: 0 <= i < |r.maps| ==> !(r.maps[i].Frame? && r.maps[i].isRender)
    ensures forall f :: f in m.maps && !(f.Frame? && f.isRender) ==> f in r.maps
    ensures Valid(m) ==> Valid(r)
  {
    m.(maps := Chain(Keep(m.maps, RenderTagged)))
  }

  /** A filter keeps a list that has nothing to drop. */
  lemma {:induction false} KeepNothingToDrop(maps: seq<Frame>, drop: Frame -> bool)
    requires forall i :: 0 <= i < |maps| ==> !drop(maps[i])
    ensures Keep(maps, drop) == maps
  {
    if maps != [] {
      KeepNothingToDrop(maps[1..], drop);
    }
  }

  /** Resetting twice is resetting once, and a `Tm` pushed on a chain is
      gone after the reset. */
  lemma ResetTmIdempotent(m: Manager, operands: seq<real>)
    requires |operands| <= 6
    ensures ResetTm(ResetTm(m)) == ResetTm(m)
    ensures ResetTm(AddTm(m, operands).value) == ResetTm(m)
  {
    var drop := TextTagged;
    var once := Keep(m.maps, drop);
    KeepNothingToDrop(Chain(once), drop);
    var pushed := AddTm(m, operands).value.maps;
    assert pushed[1..] == m.maps;
    assert Keep(pushed, drop) == Keep(m.maps, drop);
  }

  /** `remove_q`: the `q` bookkeeping of the innermost level, then the
      chain without its newest frame (`parents`).  The counter is
      decremented at the level after the decrement, as written. */
  function RemoveQ(m: Manager): (r: Manager)
    requires Valid(m)
    ensures Valid(r)
    ensures r.maps == Chain(m.maps[1..])
    ensures m.qDepth[|m.qDepth| - 1] <= 0 ==> r.qDepth == m.qDepth && r.qQueue == m.qQueue
    ensures |r.qDepth| == |m.qDepth| || |r.qDepth| == |m.qDepth| - 1
  {
    var n := |m.qDepth|;
    var last := m.qDepth[n - 1];
    var (depth, queue) :=
      if last > 0 then
        var d := last - 1;
        var depth1 := m.qDepth[..n - 1] + [d];
        var count := (if d in m.qQueue then m.qQueue[d] else 0) - 1;
        if count == 0 then (depth1[..n - 1], m.qQueue - {d}) else (depth1, m.qQueue[d := count])
      else (m.qDepth, m.qQueue);
    m.(maps := Chain(m.maps[1..]), qDepth := depth, qQueue := queue)
  }

  /** `add_q`: one more nesting level; the chain is untouched. */
  function AddQ(m: Manager): (r: Manager)
    requires Valid(m)
    ensures Valid(r) && r.maps == m.maps
    ensures r.qDepth == m.qDepth + [m.qDepth[|m.qDepth| - 1] + 1]
  {
    var d := m.qDepth[|m.qDepth| - 1] + 1;
    m.(qDepth := m.qDepth + [d], qQueue := m.qQueue[d := (if d in m.qQueue then m.qQueue[d] else 0) + 1])
  }

  /** `Q` undoes `cm`: popping after a push restores the chain. */
  lemma PopUndoesPush(m: Manager, args: seq<real>)
    requires Valid(m) && |args| <= 8
    ensures Valid(AddCm(m, args).value)
    ensures RemoveQ(AddCm(m, args).value).maps == m.maps
  {
  }

  /** The effective matrix of a chain, oldest frame first: each frame's
      matrix is multiplied on the right.  An empty map has no entry 0, a
      KeyError. */
  function Effective(maps: seq<Frame>): (r: Result<Matrix>)
    ensures r.Err? ==> r.exc == KeyError
  {
    if maps == [] then Ok(Identity)
    else if maps[0].Blank? then Err(KeyError)
    else
      var below :- Effective(maps[1..]);
      Ok(Mult(below, maps[0].m))
  }

  /** The effective matrix exists exactly when no frame is an empty map. */
  lemma {:induction false} EffectiveDefined(maps: seq<Frame>)
    ensures Effective(maps).Ok? <==> forall i :: 0 <= i < |maps| ==> maps[i].Frame?
  {
    if maps != [] {
      EffectiveDefined(maps[1..]);
      assert forall i :: 1 <= i < |maps| ==> maps[i] == maps[1..][i - 1];
    }
  }

  /** Pushing a frame multiplies its matrix onto the effective one. */
  lemma EffectivePush(m: Manager, args: seq<real>)
    requires |args| <= 8 && Effective(m.maps).Ok?
    ensures Effective(AddCm(m, args).value.maps) == Ok(Mult(Effective(m.maps).value, NewTransform(args).value.m))
  {
    var f := NewTransform(args).value;
    assert AddCm(m, args).value.maps == [f] + m.maps;
    assert ([f] + m.maps)[1..] == m.maps;
  }

  /** A chain of one frame has that frame's matrix. */
  lemma EffectiveSingle(f: Frame)
    requires f.Frame?
    ensures Effective([f]) == Ok(f.m)
  {
    assert [f][1..] == [];
    MultIdentity(f.m);
  }

  /** The initial manager's effective matrix is the identity. */
  lemma EffectiveInit()
    ensures Effective(Init().maps) == Ok(Identity)
  {
    var f := Init().maps[0];
    assert Init().maps == [f];
    EffectiveSingle(f);
  }

  /** `effective_transform`: the identity multiplied by each frame from
      the oldest to the newest, as the property's loop does. */
  method EffectiveTransform(m: Manager) returns (r: Result<Matrix>)
    ensures r == Effective(m.maps)
  {
    var result := Identity;
    var i := |m.maps|;
    while i > 0
      invariant 0 <= i <= |m.maps|
      invariant Effective(m.maps[i..]) == Ok(result)
    {
      if m.maps[i - 1].Blank? {
        BlankBelow(m.maps, i - 1);
        return Err(KeyError);
      }
      assert m.maps[i - 1..][1..] == m.maps[i..];
      result := Mult(result, m.maps[i - 1].m);
      i := i - 1;
    }
    assert m.maps[0..] == m.maps;
    return Ok(result);
  }

  /** An empty map anywhere makes the whole chain fail with KeyError. */
  lemma {:induction false} BlankBelow(maps: seq<Frame>, k: nat)
    requires k < |maps| && maps[k].Blank?
    ensures Effective(maps) == Err(KeyError)
  {
    if k > 0 {
      BlankBelow(maps[1..], k - 1);
    }
  }

  // ---------------------------------------------------------------------
  // TextStateParams
  // ---------------------------------------------------------------------

  /** The number of times `c` occurs in `s` (`str.count`). */
  function Count(s: string, c: char): (r: nat)
    ensures r <= |s|
  {
    if s == [] then 0 else (if s[0] == c then 1 else 0) + Count(s[1..], c)
  }

  lemma {:induction false} CountAppend(u: string, v: string, c: char)
    ensures Count(u + v, c) == Count(u, c) + Count(v, c)
  {
    if u == [] {
      assert u + v == v;
    } else {
      assert (u + v)[0] == u[0];
      assert (u + v)[1..] == u[1..] + v;
      CountAppend(u[1..], v, c);
    }
  }

  /** The text state `word_tx` reads. */
  datatype Spacing = Spacing(font: Font, fontSize: real, tc: real, tw: real, tz: real)

  /** `word_tx(word, TD_offset)`: the horizontal displacement of a word,
      with every space counted at the word spacing rather than at its
      glyph width. */
  function WordTx(sp: Spacing, word: string, offset: real): (r: Result<real>)
    ensures r.Ok? <==> WordWidth(sp.font, word).Ok?
  {
    var ww :- WordWidth(sp.font, word);
    Ok(Displacement(sp, ww, Count(word, ' ') as real, |word| as real) + offset)
  }

  /** The displacement of a word of width `ww` with `spaces` spaces among
      `len` characters. */
  function Displacement(sp: Spacing, ww: real, spaces: real, len: real): real
  {
    ((ww - spaces) * sp.fontSize + spaces * sp.tw + len * sp.tc) * sp.tz / 100.0
  }

  /** The displacement of two words in a row is the sum of theirs. */
  lemma WordTxAdditive(sp: Spacing, u: string, v: string, offset: real)
    requires WordWidth(sp.font, u + v).Ok?
    ensures WordWidth(sp.font, u).Ok? && WordWidth(sp.font, v).Ok?
    ensures WordTx(sp, u + v, 0.0).value == WordTx(sp, u, 0.0).value + WordTx(sp, v, 0.0).value
  {
    WordWidthAdditive(sp.font, u, v);
    CountAppend(u, v, ' ');
    var wu, wv := WordWidth(sp.font, u).value, WordWidth(sp.font, v).value;
    var su, sv := Count(u, ' ') as real, Count(v, ' ') as real;
    var lu, lv := |u| as real, |v| as real;
    assert WordWidth(sp.font, u + v).value == wu + wv;
    assert Count(u + v, ' ') as real == su + sv;
    assert |u + v| as real == lu + lv;
    SplitDisplacement(sp, wu, wv, su, sv, lu, lv);
  }

  /** The empty word moves by the offset alone. */
  lemma WordTxEmpty(sp: Spacing, offset: real)
    ensures WordTx(sp, "", offset).Ok? && WordTx(sp, "", offset).value == offset
  {
  }

  /** The arithmetic of `WordTxAdditive`: the displacement formula is
      linear in the width, the space count and the length. */
  lemma SplitDisplacement(sp: Spacing, wu: real, wv: real, su: real, sv: real, lu: real, lv: real)
    ensures Displacement(sp, wu + wv, su + sv, lu + lv) == Displacement(sp, wu, su, lu) + Displacement(sp, wv, sv, lv)
  {
    var fs, tw, tc, tz := sp.fontSize, sp.tw, sp.tc, sp.tz;
    assert ((wu + wv) - (su + sv)) * fs == (wu - su) * fs + (wv - sv) * fs;
    assert (su + sv) * tw == su * tw + sv * tw;
    assert (lu + lv) * tc == lu * tc + lv * tc;
    var a := (wu - su) * fs + su * tw + lu * tc;
    var b := (wv - sv) * fs + sv * tw + lv * tc;
    assert (a + b) * tz == a * tz + b * tz;
  }

  /** `TextStateParams` after `__post_init__`; `space_tx` and
      `font_height` are not kept. */
  datatype Params = Params(txt: string, sp: Spacing, tl: real, ts: real,
                           transform: Matrix, tx: real, ty: real, displacedTx: real,
                           flipVertical: bool, rotated: bool)

  /** `font_size_matrix`. */
  function FontSizeMatrix(sp: Spacing): Matrix
  {
    Matrix(sp.fontSize * sp.tz / 100.0, 0.0, 0.0, sp.fontSize, 0.0, 0.0)
  }

  /** `render_transform`: text rise, then the font size, then the text's
      transform. */
  function RenderTransform(sp: Spacing, ts: real, t: Matrix): Matrix
  {
    Mult(Mult(Matrix(1.0, 0.0, 0.0, 1.0, 0.0, ts), FontSizeMatrix(sp)), t)
  }

  /** `displacement_matrix(word)`: a horizontal translation by the word's
      displacement. */
  function DisplacementMatrix(sp: Spacing, word: string, offset: real): (r: Result<Matrix>)
    ensures r.Ok? <==> WordWidth(sp.font, word).Ok?
    ensures word == "" && offset == 0.0 ==> r == Ok(Identity)
  {
    var tx :- WordTx(sp, word, offset);
    assert word == "" && offset == 0.0 ==> tx == 0.0;
    Ok(Matrix(1.0, 0.0, 0.0, 1.0, tx, 0.0))
  }

  /** The end of a string shown under `t` after a displacement `w`. */
  lemma DisplacedX(w: real, t: Matrix)
    ensures Mult(Matrix(1.0, 0.0, 0.0, 1.0, w, 0.0), t).e == t.e + w * t.a
  {
  }

  /** The baseline of a string shown under `t`, raised by the text rise
      scaled by the font size. */
  lemma RenderY(sp: Spacing, ts: real, t: Matrix)
    ensures RenderTransform(sp, ts, t).f == t.f + ts * sp.fontSize * t.d
  {
    var lift := Mult(Matrix(1.0, 0.0, 0.0, 1.0, 0.0, ts), FontSizeMatrix(sp));
    assert lift.e == 0.0 && lift.f == ts * sp.fontSize && lift.b == 0.0;
  }

  /** The rotation correction of `__post_init__`: a quarter-turned matrix
      is sheared back, then a half-turned one with a negative `a` is
      turned upright.  `orient` is the library's orientation helper, a
      parameter here. */
  function Upright(t: Matrix, orient: Matrix -> int): (r: (Matrix, bool))
    ensures !r.1 <==> orient(t) != 90 && orient(t) != 270 && !(orient(t) == 180 && t.a < -0.000001)
    ensures !r.1 ==> r.0 == t
  {
    var (t1, r1) := if orient(t) == 90 || orient(t) == 270
                    then (Mult(Matrix(1.0, -t.b, -t.c, 1.0, 0.0, 0.0), t), true) else (t, false);
    if orient(t1) == 180 && t1.a < -0.000001 then (Mult(Matrix(-1.0, 0.0, 0.0, -1.0, 0.0, 0.0), t1), true)
    else (t1, r1)
  }

  /** `TextStateParams(txt, font, font_size, Tc, Tw, Tz, TL, Ts, transform)`:
      the upright transform, where the string starts (`tx`), the baseline
      raised by the text rise (`ty`), where it ends (`displaced_tx`), and
      whether the y axis is flipped.  The width of a space is computed for
      `space_tx` and fails like any word width. */
  function NewParams(txt: string, sp: Spacing, tl: real, ts: real, t: Matrix, orient: Matrix -> int): (r: Result<Params>)
    ensures r.Ok? <==> WordWidth(sp.font, txt).Ok? && WordWidth(sp.font, " ").Ok?
    ensures r.Ok? ==>
              var p := r.value;
              p.transform == Upright(t, orient).0 && p.rotated == Upright(t, orient).1
              && p.tx == p.transform.e
              && (p.flipVertical <==> p.transform.d < -0.000001)
              && p.txt == txt && p.sp == sp
  {
    var (tr, rotated) := Upright(t, orient);
    var displacement :- DisplacementMatrix(sp, txt, 0.0);
    var _ :- WordTx(sp, " ", 0.0);
    var render := RenderTransform(sp, ts, tr);
    Ok(Params(txt, sp, tl, ts, tr, tr.e, render.f, Mult(displacement, tr).e, tr.d < -0.000001, rotated))
  }

  /** The string ends its displacement to the right of where it starts,
      scaled by the transform, and its baseline is raised by the text rise
      scaled by the font size. */
  lemma NewParamsPlacement(txt: string, sp: Spacing, tl: real, ts: real, t: Matrix, orient: Matrix -> int)
    requires NewParams(txt, sp, tl, ts, t, orient).Ok?
    ensures var p := NewParams(txt, sp, tl, ts, t, orient).value;
            p.displacedTx == p.tx + WordTx(sp, txt, 0.0).value * p.transform.a
            && p.ty == p.transform.f + ts * sp.fontSize * p.transform.d
  {
    NewParamsEnd(txt, sp, tl, ts, t, orient);
    NewParamsBaseline(txt, sp, tl, ts, t, orient);
  }

  lemma NewParamsEnd(txt: string, sp: Spacing, tl: real, ts: real, t: Matrix, orient: Matrix -> int)
    requires NewParams(txt, sp, tl, ts, t, orient).Ok?
    ensures var p := NewParams(txt, sp, tl, ts, t, orient).value;
            p.displacedTx == p.tx + WordTx(sp, txt, 0.0).value * p.transform.a
  {
    var p := NewParams(txt, sp, tl, ts, t, orient).value;
    var tr := Upright(t, orient).0;
    var w := WordTx(sp, txt, 0.0).value;
    assert p.transform == tr && p.tx == tr.e;
    assert p.displacedTx == Mult(Matrix(1.0, 0.0, 0.0, 1.0, w, 0.0), tr).e;
    DisplacedX(w, tr);
  }

  lemma NewParamsBaseline(txt: string, sp: Spacing, tl: real, ts: real, t: Matrix, orient: Matrix -> int)
    requires NewParams(txt, sp, tl, ts, t, orient).Ok?
    ensures var p := NewParams(txt, sp, tl, ts, t, orient).value;
            p.ty == p.transform.f + ts * sp.fontSize * p.transform.d
  {
    var p := NewParams(txt, sp, tl, ts, t, orient).value;
    var tr := Upright(t, orient).0;
    assert p.transform == tr && p.ty == RenderTransform(sp, ts, tr).f;
    RenderY(sp, ts, tr);
  }

  /** `text_state_params(value)`: the parameters of the current state
      for a string; PdfReadError before any `Tf`, KeyError when the chain
      holds an empty map. */
  function TextStateParams(m: Manager, txt: string, orient: Matrix -> int): (r: Result<Params>)
    ensures m.font.None? ==> r == Err(PdfReadError)
    ensures m.font.Some? && Effective(m.maps).Err? ==> r == Err(KeyError)
    ensures r.Ok? ==> r.value.sp == Spacing(m.font.value, m.fontSize, m.tc, m.tw, m.tz) && r.value.ts == m.ts
                      && Upright(Effective(m.maps).value, orient).0 == r.value.transform
  {
    if m.font.None? then Err(PdfReadError)
    else
      var t :- Effective(m.maps);
      NewParams(txt, Spacing(m.font.value, m.fontSize, m.tc, m.tw, m.tz), m.tl, m.ts, t, orient)
  }

  /** A string that moves nowhere ends where it starts. */
  lemma EmptyTextStays(sp: Spacing, tl: real, ts: real, t: Matrix, orient: Matrix -> int)
    requires WordWidth(sp.font, " ").Ok?
    ensures NewParams("", sp, tl, ts, t, orient).Ok?
    ensures NewParams("", sp, tl, ts, t, orient).value.displacedTx == NewParams("", sp, tl, ts, t, orient).value.tx
  {
    NewParamsPlacement("", sp, tl, ts, t, orient);
    WordTxEmpty(sp, 0.0);
  }

  /** The parameters of the current state for the empty string place its
      end at its start. */
  lemma TextStateParamsEmpty(m: Manager, orient: Matrix -> int)
    ensures TextStateParams(m, "", orient).Ok? ==>
              TextStateParams(m, "", orient).value.displacedTx == TextStateParams(m, "", orient).value.tx
  {
    if TextStateParams(m, "", orient).Ok? {
      EmptyTextStays(Spacing(m.font.value, m.fontSize, m.tc, m.tw, m.tz), m.tl, m.ts, Effective(m.maps).value, orient);
    }
  }
}
