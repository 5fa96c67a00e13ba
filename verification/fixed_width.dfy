/** The fixed-width layout pass of
    `pypdf/_text_extraction/_layout_mode/_fixed_width_page.py`: the walk
    over a content stream's operators that records where each string is
    shown (`BT`/`ET` text objects and `q`/`Q` graphics-state blocks of
    sections 8.4.2 and 9.4 of ISO 32000-1), the bucketing of the shown
    strings by line, the average character width, and the page text laid
    out on a character grid. */
module FixedWidth {
  import opened PyBase
  import opened PyText
  import opened Transformations
  import opened LayoutFont
  import opened TextState

  /** A content-stream operand as the parser yields it: a number, a text
      string (`str`), a byte string, a name (a `str` subclass) or an
      array. */
  datatype Operand = Num(v: real) | Str(s: string) | Raw(b: seq<byte>) | NameOp(n: string) | Arr(items: seq<Operand>)

  /** The operators the pass tells apart, by their names in section A.2
      of ISO 32000-1; every other operator is `Other`. */
  datatype Operator = BT | ET | q | Q | cm | Tm | Tf | Tc | Tw | Tz | TL | Ts | Tj | TJ | Other(name: string)

  /** The five operators that set one text-state parameter. */
  predicate IsParam(o: Operator) { o.Tc? || o.Tw? || o.Tz? || o.TL? || o.Ts? }

  /** The operator's name, as `set_state_param` receives it. */
  function ParamName(o: Operator): (r: string)
    requires IsParam(o)
    ensures |r| == 2 && r[0] == 'T'
  {
    match o
    case Tc => "Tc"
    case Tw => "Tw"
    case Tz => "Tz"
    case TL => "TL"
    case Ts => "Ts"
  }

  /** One operator with its operands. */
  datatype Op = Op(operands: seq<Operand>, operator: Operator)

  /** `BTGroup`: where a shown string starts and ends, its baseline, its
      nominal font size, the text itself (whatever the operand was) and
      -1 when the page is upside down.  `font_height` is not kept. */
  datatype Group = Group(tx: real, ty: real, fontSize: real, text: Operand, displacedTx: real, flipSort: int)

  /** `isinstance(o, str)`. */
  predicate IsText(o: Operand) { o.Str? || o.NameOp? }

  function TextOf(o: Operand): string
    requires IsText(o)
  {
    if o.Str? then o.s else o.n
  }

  /** `bt_group(tj_op, rendered_text, displaced_tx)`. */
  function BtGroup(p: Params, text: Operand, displacedTx: real): (r: Group)
    ensures r.tx == p.tx && r.ty == p.ty && r.text == text && r.displacedTx == displacedTx
    ensures r.flipSort == -1 <==> p.flipVertical
  {
    Group(p.tx, p.ty, p.sp.fontSize, text, displacedTx, if p.flipVertical then -1 else 1)
  }

  // ---------------------------------------------------------------------
  // The operator walk
  // ---------------------------------------------------------------------

  /** A stored operand as the model's text state holds it: a number keeps
      its value and anything else stands as 0, the state remembering apart
      (`Stored`) that the value is not a number. */
  function Value(o: Operand): real
  {
    if o.Num? then o.v else 0.0
  }

  /** The operands of `cm` or `Tm` as the text state stores them. */
  function Values(operands: seq<Operand>): (r: seq<real>)
    ensures |r| == |operands|
    ensures forall k :: 0 <= k < |operands| && operands[k].Num? ==> r[k] == operands[k].v
  {
    seq(|operands|, k requires 0 <= k < |operands| => Value(operands[k]))
  }

  /** One of the six matrix entries of a `cm` or `Tm` is not a number; a
      seventh and eighth operand of `cm` are only the frame's tags. */
  predicate NonNumberEntry(operands: seq<Operand>)
  {
    exists k :: 0 <= k < |operands| && k < 6 && !operands[k].Num?
  }

  /** `''.join(op if isinstance(op, str) else '' for op in items)`. */
  function JoinText(items: seq<Operand>): (r: string)
    ensures (forall k :: 0 <= k < |items| ==> !IsText(items[k])) ==> r == ""
  {
    if items == [] then "" else (if IsText(items[0]) then TextOf(items[0]) else "") + JoinText(items[1..])
  }

  /** The rendered text of a `TJ` operand: iterating an array joins its
      strings, iterating a string yields its characters, iterating bytes
      yields integers; a number cannot be iterated. */
  function TjText(o: Operand): (r: Result<Operand>)
    ensures r.Ok? <==> !o.Num?
    ensures r.Ok? ==> r.value.Str?
    ensures IsText(o) ==> r == Ok(Str(TextOf(o)))
  {
    match o
    case Arr(items) => Ok(Str(JoinText(items)))
    case Str(s) => Ok(Str(s))
    case NameOp(n) => Ok(Str(n))
    case Raw(_) => Ok(Str(""))
    case Num(_) => Err(TypeError)
  }

  predicate IsShow(op: Op) { op.operator.Tj? || op.operator.TJ? }

  /** The number of text-showing operators in `ops[a..b]`. */
  function CountShow(ops: seq<Op>, a: nat, b: nat): nat
    requires a <= b <= |ops|
    decreases b - a
  {
    if a == b then 0 else (if IsShow(ops[a]) then 1 else 0) + CountShow(ops, a + 1, b)
  }

  lemma {:induction false} CountShowSplit(ops: seq<Op>, a: nat, b: nat, c: nat)
    requires a <= b <= c <= |ops|
    ensures CountShow(ops, a, c) == CountShow(ops, a, b) + CountShow(ops, b, c)
    decreases b - a
  {
    if a < b {
      CountShowSplit(ops, a + 1, b, c);
    }
  }

  /** Which stored values are not numbers.  The text state takes operands
      as they come, and only a text-showing operator computes with them:
      the font size (`size`), the parameters named in `params` (any of
      `Tc`, `Tw`, `Tz`, `TL`, `Ts`) and, frame by frame along the chain,
      a matrix (`frames`, aligned with the manager's `maps`). */
  datatype Stored = Stored(size: bool, params: set<string>, frames: seq<bool>)

  /** The text state of the walk: the manager, 0 standing in it for each
      stored value that is not a number, and which values those are. */
  datatype State = State(mgr: Manager, stored: Stored)

  predicate Fits(st: State)
  {
    Valid(st.mgr) && |st.stored.frames| == |st.mgr.maps|
  }

  /** Every value the parameters of a shown string are computed from is a
      number: the font size, the character and word spacing, the
      horizontal scaling, the rise and each matrix on the chain.  The
      leading is stored but never computed with. */
  predicate Usable(s: Stored)
  {
    !s.size && "Tc" !in s.params && "Tw" !in s.params && "Tz" !in s.params && "Ts" !in s.params
    && forall k :: 0 <= k < |s.frames| ==> !s.frames[k]
  }

  /** `TextStateManager()`: nothing stored yet that is not a number. */
  function Start(): (r: State)
    ensures Fits(r) && Usable(r.stored) && r.mgr == Init()
  {
    State(Init(), Stored(false, {}, [false]))
  }

  /** `add_cm(*operands)`: one frame pushed, remembered as unusable when
      one of its entries is not a number. */
  function PushCm(st: State, operands: seq<Operand>): (r: Result<State>)
    requires Fits(st)
    ensures r.Ok? <==> |operands| <= 8
    ensures r.Err? ==> r.exc == TypeError
    ensures r.Ok? ==> Fits(r.value) && r.value.mgr.maps[1..] == st.mgr.maps && r.value.mgr.(maps := st.mgr.maps) == st.mgr
                      && r.value.stored == st.stored.(frames := [NonNumberEntry(operands)] + st.stored.frames)
  {
    var m :- AddCm(st.mgr, Values(operands));
    Ok(State(m, st.stored.(frames := [NonNumberEntry(operands)] + st.stored.frames)))
  }

  /** `add_tm(operands)`: the same for a text matrix. */
  function PushTm(st: State, operands: seq<Operand>): (r: Result<State>)
    requires Fits(st)
    ensures r.Ok? <==> |operands| <= 6
    ensures r.Err? ==> r.exc == TypeError
    ensures r.Ok? ==> Fits(r.value) && r.value.mgr.maps[1..] == st.mgr.maps && r.value.mgr.(maps := st.mgr.maps) == st.mgr
                      && r.value.stored == st.stored.(frames := [NonNumberEntry(operands)] + st.stored.frames)
  {
    var m :- AddTm(st.mgr, Values(operands));
    Ok(State(m, st.stored.(frames := [NonNumberEntry(operands)] + st.stored.frames)))
  }

  /** `add_q()`: the chain and what it stores are untouched. */
  function Open(st: State): (r: State)
    requires Fits(st)
    ensures Fits(r) && r.mgr.maps == st.mgr.maps && r.stored == st.stored
  {
    State(AddQ(st.mgr), st.stored)
  }

  /** `remove_q()`: the newest frame leaves the chain, and with it what is
      remembered about it; popping the last frame leaves an empty map. */
  function Close(st: State): (r: State)
    requires Fits(st)
    ensures Fits(r) && r.mgr.maps == Chain(st.mgr.maps[1..])
    ensures |st.stored.frames| > 1 ==> r.stored.frames == st.stored.frames[1..]
    ensures r.stored.size == st.stored.size && r.stored.params == st.stored.params
  {
    State(RemoveQ(st.mgr), st.stored.(frames := if |st.stored.frames| > 1 then st.stored.frames[1..] else [false]))
  }

  /** What a walk to a closing operator yields: the groups kept, the text
      parameters of every string shown, the state afterwards, and the
      index after the last operator consumed. */
  datatype Walk = Walk(groups: seq<Group>, params: seq<Params>, st: State, next: nat)

  /** The shared context of a walk: the page's fonts by name, whether
      rotated text is dropped, the orientation helper, whether a string's
      parameters are built for its text (`passText`, the correction of
      the finding at line 99) or, as written, for the empty string, and
      the UTF-8 decoding `text_state_params` applies to a byte string. */
  datatype Context = Context(fonts: map<string, Font>, stripRotated: bool, orient: Matrix -> int,
                             passText: bool, utf8: seq<byte> -> string)

  /** The text state after a text-state operator (`Tf`, `Tc`, `Tw`, `Tz`,
      `TL`, `Ts`).  `Tf` unpacks exactly two operands (ValueError) and
      looks the name up among the fonts (KeyError; an array name is
      unhashable, a TypeError); the others take the first operand
      (IndexError when there is none).  The value itself is stored
      whatever it is. */
  function StateOp(st: State, op: Op, ctx: Context): (r: Result<State>)
    requires op.operator.Tf? || IsParam(op.operator)
    ensures op.operator.Tf? ==> (r.Ok? <==> |op.operands| == 2 && IsText(op.operands[0]) && TextOf(op.operands[0]) in ctx.fonts)
    ensures IsParam(op.operator) ==> (r.Ok? <==> op.operands != [])
    ensures r.Ok? ==> r.value.mgr.maps == st.mgr.maps && r.value.mgr.qDepth == st.mgr.qDepth
                      && r.value.stored.frames == st.stored.frames
    ensures r.Ok? && op.operator.Tf? ==>
              r.value.stored.size == !op.operands[1].Num? && r.value.stored.params == st.stored.params
              && r.value.mgr.font == Some(ctx.fonts[TextOf(op.operands[0])])
    ensures r.Ok? && IsParam(op.operator) ==>
              r.value.stored.size == st.stored.size
              && (forall p :: p in r.value.stored.params <==>
                                (if p == ParamName(op.operator) then !op.operands[0].Num? else p in st.stored.params))
  {
    if op.operator.Tf? then
      if |op.operands| != 2 then Err(ValueError)
      else
        var name := op.operands[0];
        if name.Arr? then Err(TypeError)
        else if !IsText(name) || TextOf(name) !in ctx.fonts then Err(KeyError)
        else
          var size := op.operands[1];
          Ok(State(SetFont(st.mgr, ctx.fonts[TextOf(name)], Value(size)), st.stored.(size := !size.Num?)))
    else
      var p := ParamName(op.operator);
      var m :- SetStateParam(st.mgr, p, List(if op.operands == [] then [] else [Value(op.operands[0])]));
      var number := op.operands == [] || op.operands[0].Num?;
      Ok(State(m, st.stored.(params := if number then st.stored.params - {p} else st.stored.params + {p})))
  }

  /** The rendered text of a `Tj` or `TJ`: its first operand, a `TJ`
      array joined; IndexError without an operand. */
  function Rendered(op: Op): (r: Result<Operand>)
    requires IsShow(op)
    ensures op.operands == [] ==> r == Err(IndexError)
    ensures r.Ok? <==> op.operands != [] && (op.operator.TJ? ==> !op.operands[0].Num?)
    ensures op.operands != [] && op.operator.Tj? ==> r == Ok(op.operands[0])
  {
    if op.operands == [] then Err(IndexError)
    else if op.operator.TJ? then TjText(op.operands[0])
    else Ok(op.operands[0])
  }

  /** The text the corrected walk builds a string's parameters for:
      the rendered string, or a byte string decoded as UTF-8; a `Tj`
      operand that is neither is not text. */
  function ParamText(text: Operand, utf8: seq<byte> -> string): (r: Result<string>)
    ensures r.Ok? <==> IsText(text) || text.Raw?
    ensures r.Err? ==> r.exc == TypeError
    ensures IsText(text) ==> r == Ok(TextOf(text))
    ensures text.Raw? ==> r == Ok(utf8(text.b))
  {
    if IsText(text) then Ok(TextOf(text))
    else if text.Raw? then Ok(utf8(text.b))
    else Err(TypeError)
  }

  /** A `Tj` or `TJ`.  As written: the parameters of the current state
      for the empty string (the text is not passed on), then the rendered
      text.  Corrected (`passText`): the rendered text first, then the
      parameters for it.  The group is kept unless rotated text is
      stripped.  Building the parameters is where stored values are
      computed with: one that is not a number fails there, after the
      checks for a font and for an empty map. */
  function ShowOp(st: State, op: Op, ctx: Context): (r: Result<(Option<Group>, Params)>)
    requires IsShow(op)
    ensures !ctx.passText && st.mgr.font.None? ==> r == Err(PdfReadError)
    ensures !ctx.passText && st.mgr.font.Some? && Effective(st.mgr.maps).Err? ==> r == Err(KeyError)
    ensures !ctx.passText && st.mgr.font.Some? && Effective(st.mgr.maps).Ok? && !Usable(st.stored) ==> r == Err(TypeError)
    ensures ctx.passText && Rendered(op).Ok? && ParamText(Rendered(op).value, ctx.utf8).Ok?
            && TextStateParams(st.mgr, ParamText(Rendered(op).value, ctx.utf8).value, ctx.orient).Ok? && !Usable(st.stored)
            ==> r == Err(TypeError)
    ensures r.Ok? ==> Usable(st.stored) && Rendered(op).Ok? && (r.value.0.None? <==> ctx.stripRotated && r.value.1.rotated)
    ensures r.Ok? && r.value.0.Some? ==>
              r.value.0.value == BtGroup(r.value.1, Rendered(op).value, r.value.1.displacedTx)
    ensures r.Ok? && ctx.passText ==>
              ParamText(Rendered(op).value, ctx.utf8).Ok? && r.value.1.txt == ParamText(Rendered(op).value, ctx.utf8).value
    ensures r.Ok? && !ctx.passText && r.value.0.Some? ==> r.value.0.value.displacedTx == r.value.0.value.tx
  {
    if ctx.passText then
      var text :- Rendered(op);
      var txt :- ParamText(text, ctx.utf8);
      var p :- TextState.TextStateParams(st.mgr, txt, ctx.orient);
      if !Usable(st.stored) then Err(TypeError)
      else Ok((if ctx.stripRotated && p.rotated then None else Some(BtGroup(p, text, p.displacedTx)), p))
    else
      var p :- TextState.TextStateParams(st.mgr, "", ctx.orient);
      if !Usable(st.stored) then Err(TypeError)
      else
        var text :- Rendered(op);
        TextStateParamsEmpty(st.mgr, ctx.orient);
        Ok((if ctx.stripRotated && p.rotated then None else Some(BtGroup(p, text, p.displacedTx)), p))
  }

  /** Where a string that starts at `p.tx` ends after advancing `w` in
      text space: the advance scaled by the transform. */
  function Advance(p: Params, w: real): real
  {
    p.tx + w * p.transform.a
  }

  /** Once the text is passed on, a group ends where its text does: its
      start moved by the text's width, scaled by the transform. */
  lemma ShownGroupsMove(st: State, op: Op, ctx: Context)
    requires IsShow(op) && ctx.passText
    requires ShowOp(st, op, ctx).Ok? && ShowOp(st, op, ctx).value.0.Some?
    ensures var (g, p) := ShowOp(st, op, ctx).value;
            p.txt == ParamText(Rendered(op).value, ctx.utf8).value && WordTx(p.sp, p.txt, 0.0).Ok?
            && g.value.tx == p.tx && g.value.displacedTx == Advance(p, WordTx(p.sp, p.txt, 0.0).value)
  {
    var text := Rendered(op).value;
    var txt := ParamText(text, ctx.utf8).value;
    var p := TextStateParams(st.mgr, txt, ctx.orient).value;
    assert ShowOp(st, op, ctx).value == (Some(BtGroup(p, text, p.displacedTx)), p);
    ParamsPlacement(st.mgr, txt, ctx.orient);
  }

  /** The parameters for a text place its end after it. */
  lemma ParamsPlacement(m: Manager, txt: string, orient: Matrix -> int)
    requires TextStateParams(m, txt, orient).Ok?
    ensures var p := TextStateParams(m, txt, orient).value;
            p.txt == txt && WordTx(p.sp, txt, 0.0).Ok? && p.displacedTx == Advance(p, WordTx(p.sp, txt, 0.0).value)
  {
    var sp := Spacing(m.font.value, m.fontSize, m.tc, m.tw, m.tz);
    var t := Effective(m.maps).value;
    var q := NewParams(txt, sp, m.tl, m.ts, t, orient);
    assert TextStateParams(m, txt, orient) == q;
    NewParamsAdvance(txt, sp, m.tl, m.ts, t, orient);
  }

  lemma NewParamsAdvance(txt: string, sp: Spacing, tl: real, ts: real, t: Matrix, orient: Matrix -> int)
    requires NewParams(txt, sp, tl, ts, t, orient).Ok?
    ensures var p := NewParams(txt, sp, tl, ts, t, orient).value;
            p.sp == sp && p.txt == txt && p.displacedTx == Advance(p, WordTx(sp, txt, 0.0).value)
  {
    NewParamsPlacement(txt, sp, tl, ts, t, orient);
  }

  /** An operator that neither opens a block nor shows text: `cm` and
      `Tm` push a frame, the text-state operators set the state, and
      anything else changes nothing. */
  function StepOp(st: State, op: Op, ctx: Context): (r: Result<State>)
    requires Fits(st)
    ensures r.Ok? ==> Fits(r.value)
    ensures !(op.operator.cm? || op.operator.Tm? || op.operator.Tf? || IsParam(op.operator)) ==> r == Ok(st)
  {
    if op.operator.cm? then PushCm(st, op.operands)
    else if op.operator.Tm? then PushTm(st, op.operands)
    else if op.operator.Tf? || IsParam(op.operator) then StateOp(st, op, ctx)
    else Ok(st)
  }

  /** A `Tf` naming a font the page does not have is a KeyError; `cm` and
      `Tm` push one frame and change nothing else; the text-state
      operators leave the frames alone. */
  lemma StepOpEffects(st: State, op: Op, ctx: Context)
    requires Fits(st)
    ensures op.operator.Tf? && |op.operands| == 2 && IsText(op.operands[0]) && TextOf(op.operands[0]) !in ctx.fonts
            ==> StepOp(st, op, ctx) == Err(KeyError)
    ensures (op.operator.cm? || op.operator.Tm?) && StepOp(st, op, ctx).Ok? ==>
              var r := StepOp(st, op, ctx).value.mgr;
              |r.maps| == |st.mgr.maps| + 1 && r.maps[1..] == st.mgr.maps && r.(maps := st.mgr.maps) == st.mgr
    ensures (op.operator.Tf? || IsParam(op.operator)) && StepOp(st, op, ctx).Ok? ==>
              StepOp(st, op, ctx).value.mgr.maps == st.mgr.maps
  {
  }

  /** Whether a step succeeds depends on how many operands it has and on
      the font it names, never on whether the values stored are numbers:
      the text state stores them unchecked. */
  lemma StepStoresAnything(st: State, op: Op, op': Op, ctx: Context)
    requires Fits(st) && op.operator == op'.operator && |op.operands| == |op'.operands|
    requires op.operator.Tf? && |op.operands| == 2 ==> op.operands[0] == op'.operands[0]
    ensures StepOp(st, op, ctx).Ok? <==> StepOp(st, op', ctx).Ok?
  {
  }

  /** The leading is stored and never computed with: whatever `TL` sets,
      a string shown afterwards fares as after `0 TL`, group and all. */
  lemma LeadingNeverComputed(st: State, x: Operand, show: Op, ctx: Context)
    requires Fits(st) && IsShow(show)
    ensures var a := StateOp(st, Op([x], TL), ctx).value;
            var b := StateOp(st, Op([Num(0.0)], TL), ctx).value;
            (ShowOp(a, show, ctx).Ok? <==> ShowOp(b, show, ctx).Ok?)
            && (ShowOp(a, show, ctx).Ok? ==> ShowOp(a, show, ctx).value.0 == ShowOp(b, show, ctx).value.0)
  {
    var a := StateOp(st, Op([x], TL), ctx).value;
    var b := StateOp(st, Op([Num(0.0)], TL), ctx).value;
    assert Usable(a.stored) <==> Usable(b.stored);
    assert a.mgr == b.mgr.(tl := Value(x));
  }

  /** Every group ends where it starts. */
  predicate Stationary(gs: seq<Group>)
  {
    forall k :: 0 <= k < |gs| ==> gs[k].displacedTx == gs[k].tx
  }

  lemma StationaryConcat(a: seq<Group>, b: seq<Group>)
    requires Stationary(a) && Stationary(b)
    ensures Stationary(a + b)
  {
    assert forall k :: 0 <= k < |a + b| ==> (a + b)[k] == if k < |a| then a[k] else b[k - |a|];
  }

  /** What the walk keeps between the groups and the parameters: one set
      of parameters per string shown, a group for each of them unless
      rotated text is stripped, and no group that moves. */
  predicate Consistent(gs: seq<Group>, ps: seq<Params>, ctx: Context)
  {
    |gs| <= |ps| && (!ctx.stripRotated ==> |gs| == |ps|) && (!ctx.passText ==> Stationary(gs))
  }

  /** The groups and parameters of an inner walk or of one string ahead
      of those of the rest of the walk (`list.extend`). */
  function Prepend(gs: seq<Group>, ps: seq<Params>, w: Walk, ctx: Context): (r: Walk)
    ensures Consistent(gs, ps, ctx) && Consistent(w.groups, w.params, ctx) ==> Consistent(r.groups, r.params, ctx)
    ensures r.st == w.st && r.next == w.next && |r.params| == |ps| + |w.params|
  {
    if Stationary(gs) && Stationary(w.groups) then
      StationaryConcat(gs, w.groups);
      Walk(gs + w.groups, ps + w.params, w.st, w.next)
    else Walk(gs + w.groups, ps + w.params, w.st, w.next)
  }

  /** `recurs_to_target_op(ops, mgr, target, fonts, strip_rotated)` from
      operator `i`: the first operator equal to `target` ends the walk and
      is consumed; `BT` walks to `ET` and `q` opens a level and walks to
      `Q`, both continuing after what the inner walk consumed; `cm` and
      `Tm` push frames; the text-state operators set the state; `Tj` and
      `TJ` record their strings; anything else is passed over.  Running
      out of operators ends the walk too. */
  function Recur(ops: seq<Op>, i: nat, st: State, target: Operator, ctx: Context): (r: Result<Walk>)
    requires i <= |ops| && Fits(st) && (target.ET? || target.Q?)
    ensures r.Ok? ==> i <= r.value.next <= |ops| && (i < |ops| ==> i < r.value.next)
    ensures r.Ok? ==> Fits(r.value.st)
    decreases |ops| - i, 1
  {
    if i == |ops| then Ok(Walk([], [], st, i))
    else
      var op := ops[i];
      if op.operator == target then Ok(Walk([], [], st, i + 1))
      else if op.operator.BT? || op.operator.q? then
        var inner :- Block(ops, i, st, ctx);
        var rest :- Recur(ops, inner.next, inner.st, target, ctx);
        Ok(Prepend(inner.groups, inner.params, rest, ctx))
      else
        var one :- Single(st, op, ctx);
        var rest :- Recur(ops, i + 1, one.st, target, ctx);
        Ok(Prepend(one.groups, one.params, rest, ctx))
  }

  /** The effect of one operator that opens no block: a text-showing
      operator records its string and keeps the state, any other one
      updates the state. */
  function Single(st: State, op: Op, ctx: Context): (r: Result<Walk>)
    requires Fits(st)
    ensures r.Ok? ==> Fits(r.value.st) && Consistent(r.value.groups, r.value.params, ctx)
    ensures r.Ok? ==> |r.value.params| == (if IsShow(op) then 1 else 0)
  {
    if IsShow(op) then
      var shown :- ShowOp(st, op, ctx);
      Ok(Walk(if shown.0.Some? then [shown.0.value] else [], [shown.1], st, 0))
    else
      var st' :- StepOp(st, op, ctx);
      Ok(Walk([], [], st', 0))
  }

  /** The block `ops[i]` opens: `BT` walks to `ET`; `q` opens a level of
      the `q` nesting and walks to `Q`. */
  function Block(ops: seq<Op>, i: nat, st: State, ctx: Context): (r: Result<Walk>)
    requires i < |ops| && Fits(st) && (ops[i].operator.BT? || ops[i].operator.q?)
    ensures r.Ok? ==> i < r.value.next <= |ops| && Fits(r.value.st)
    decreases |ops| - i, 0
  {
    if ops[i].operator.q? then Recur(ops, i + 1, Open(st), Q, ctx)
    else Recur(ops, i + 1, st, ET, ctx)
  }

  /** Every string shown inside the walk has its parameters recorded, in
      order, and a group unless it is rotated and stripped; no group
      moves. */
  lemma {:induction false} RecurSound(ops: seq<Op>, i: nat, st: State, target: Operator, ctx: Context)
    requires i <= |ops| && Fits(st) && (target.ET? || target.Q?)
    requires Recur(ops, i, st, target, ctx).Ok?
    ensures var w := Recur(ops, i, st, target, ctx).value;
            |w.params| == CountShow(ops, i, w.next) && Consistent(w.groups, w.params, ctx)
    decreases |ops| - i, 2
  {
    if i < |ops| && ops[i].operator != target {
      if ops[i].operator.BT? || ops[i].operator.q? {
        NestedSound(ops, i, st, target, ctx);
      } else {
        SingleSound(ops, i, st, target, ctx);
      }
    }
  }

  /** The walk step over a nested block. */
  lemma {:induction false} NestedSound(ops: seq<Op>, i: nat, st: State, target: Operator, ctx: Context)
    requires i < |ops| && Fits(st) && (target.ET? || target.Q?)
    requires ops[i].operator != target && (ops[i].operator.BT? || ops[i].operator.q?)
    requires Recur(ops, i, st, target, ctx).Ok?
    ensures var w := Recur(ops, i, st, target, ctx).value;
            |w.params| == CountShow(ops, i, w.next) && Consistent(w.groups, w.params, ctx)
    decreases |ops| - i, 1
  {
    BlockSound(ops, i, st, ctx);
    var inner := Block(ops, i, st, ctx).value;
    RecurSound(ops, inner.next, inner.st, target, ctx);
    var rest := Recur(ops, inner.next, inner.st, target, ctx).value;
    CountShowSplit(ops, i, inner.next, rest.next);
    assert Recur(ops, i, st, target, ctx).value == Prepend(inner.groups, inner.params, rest, ctx);
  }

  /** The walk step over one operator. */
  lemma {:induction false} SingleSound(ops: seq<Op>, i: nat, st: State, target: Operator, ctx: Context)
    requires i < |ops| && Fits(st) && (target.ET? || target.Q?)
    requires ops[i].operator != target && !(ops[i].operator.BT? || ops[i].operator.q?)
    requires Recur(ops, i, st, target, ctx).Ok?
    ensures var w := Recur(ops, i, st, target, ctx).value;
            |w.params| == CountShow(ops, i, w.next) && Consistent(w.groups, w.params, ctx)
    decreases |ops| - i, 1
  {
    var one := Single(st, ops[i], ctx).value;
    RecurSound(ops, i + 1, one.st, target, ctx);
    var rest := Recur(ops, i + 1, one.st, target, ctx).value;
    assert Recur(ops, i, st, target, ctx).value == Prepend(one.groups, one.params, rest, ctx);
  }

  lemma {:induction false} BlockSound(ops: seq<Op>, i: nat, st: State, ctx: Context)
    requires i < |ops| && Fits(st) && (ops[i].operator.BT? || ops[i].operator.q?)
    requires Block(ops, i, st, ctx).Ok?
    ensures var w := Block(ops, i, st, ctx).value;
            |w.params| == CountShow(ops, i, w.next) && Consistent(w.groups, w.params, ctx)
    decreases |ops| - i, 0
  {
    if ops[i].operator.q? {
      RecurSound(ops, i + 1, Open(st), Q, ctx);
    } else {
      RecurSound(ops, i + 1, st, ET, ctx);
    }
  }

  /** The closing operator ends the block at once, consuming it without
      undoing anything: a frame pushed by `cm` inside a block is still on
      the chain after the block's `Q`. */
  lemma BlockKeepsFrames(ops: seq<Op>, i: nat, st: State, target: Operator, ctx: Context, args: seq<real>)
    requires i + 1 < |ops| && Fits(st) && (target.ET? || target.Q?)
    requires ops[i] == Op(seq(|args|, k requires 0 <= k < |args| => Num(args[k])), cm) && |args| <= 8
    requires ops[i + 1].operator == target
    ensures Recur(ops, i + 1, st, target, ctx) == Ok(Walk([], [], st, i + 2))
    ensures Recur(ops, i, st, target, ctx).Ok?
    ensures Recur(ops, i, st, target, ctx).value.st.mgr.maps == [NewTransform(args).value] + st.mgr.maps
    ensures Recur(ops, i, st, target, ctx).value.st.stored.frames == [false] + st.stored.frames
    ensures Recur(ops, i, st, target, ctx).value.next == i + 2
  {
    assert Values(ops[i].operands) == args;
    assert !NonNumberEntry(ops[i].operands);
  }

  /** `text_show_operations(ops, fonts, strip_rotated)` from operator `i`:
      at the top level only `BT`, `q`, `Q` and `cm` act, and the groups of
      the inner walks are collected. */
  function TextShow(ops: seq<Op>, i: nat, st: State, ctx: Context): (r: Result<seq<Group>>)
    requires i <= |ops| && Fits(st)
    ensures r.Ok? ==> |r.value| <= CountShow(ops, i, |ops|)
    ensures r.Ok? && !ctx.passText ==> Stationary(r.value)
    decreases |ops| - i
  {
    if i == |ops| then Ok([])
    else
      var op := ops[i];
      if op.operator.BT? || op.operator.q? then
        var inner :- Block(ops, i, st, ctx);
        var rest :- TextShow(ops, inner.next, inner.st, ctx);
        BlockSound(ops, i, st, ctx);
        CountShowSplit(ops, i, inner.next, |ops|);
        assert !ctx.passText ==> Stationary(inner.groups + rest) by {
          if !ctx.passText { StationaryConcat(inner.groups, rest); }
        }
        Ok(inner.groups + rest)
      else if op.operator.Q? then TextShow(ops, i + 1, Close(st), ctx)
      else if op.operator.cm? then
        var st' :- PushCm(st, op.operands);
        TextShow(ops, i + 1, st', ctx)
      else TextShow(ops, i + 1, st, ctx)
  }

  /** A fresh state's chain has an effective matrix. */
  lemma StartHasMatrix()
    ensures Effective(Start().mgr.maps).Ok?
  {
    var maps := Start().mgr.maps;
    assert maps == [Frame(Identity, false, false)];
    EffectiveDefined(maps);
  }

  /** `/F1 12 Tf` in a fresh state. */
  function Fonted(ctx: Context): (r: State)
    requires "/F1" in ctx.fonts
    ensures Fits(r) && r.mgr.maps == Start().mgr.maps && r.mgr.font.Some? && Usable(r.stored)
    ensures Single(Start(), Op([NameOp("/F1"), Num(12.0)], Tf), ctx) == Ok(Walk([], [], r, 0))
  {
    StateOp(Start(), Op([NameOp("/F1"), Num(12.0)], Tf), ctx).value
  }

  /** Then `/X Tc`: a character spacing that is not a number. */
  function Spaced(ctx: Context): (r: State)
    requires "/F1" in ctx.fonts
    ensures Fits(r) && r.mgr.maps == Start().mgr.maps && r.mgr.font.Some? && !Usable(r.stored)
    ensures Single(Fonted(ctx), Op([NameOp("/X")], Tc), ctx) == Ok(Walk([], [], r, 0))
  {
    StateOp(Fonted(ctx), Op([NameOp("/X")], Tc), ctx).value
  }

  /** A name where `Tc` wants a number is stored without complaint: a
      text object that shows nothing walks through it. */
  lemma NonNumberStored(ctx: Context)
    requires "/F1" in ctx.fonts
    ensures TextShowOperations([Op([], BT), Op([NameOp("/F1"), Num(12.0)], Tf), Op([NameOp("/X")], Tc), Op([], ET)], ctx) == Ok([])
  {
    var ops := [Op([], BT), Op([NameOp("/F1"), Num(12.0)], Tf), Op([NameOp("/X")], Tc), Op([], ET)];
    var st := Spaced(ctx);
    assert Recur(ops, 3, st, ET, ctx) == Ok(Walk([], [], st, 4));
    assert Recur(ops, 2, Fonted(ctx), ET, ctx) == Ok(Walk([], [], st, 4));
    assert Recur(ops, 1, Start(), ET, ctx) == Ok(Walk([], [], st, 4));
    assert TextShow(ops, 4, st, ctx) == Ok([]);
  }

  /** A name among the `cm` operands at the top level is stored too: a
      stream holding only that operator yields no group and no error. */
  lemma NonNumberMatrixStored(ctx: Context)
    ensures TextShowOperations([Op([NameOp("/X"), Num(0.0), Num(0.0), Num(1.0), Num(0.0), Num(0.0)], cm)], ctx) == Ok([])
  {
    var ops := [Op([NameOp("/X"), Num(0.0), Num(0.0), Num(1.0), Num(0.0), Num(0.0)], cm)];
    var st := PushCm(Start(), ops[0].operands);
    assert st.Ok?;
    assert TextShow(ops, 1, st.value, ctx) == Ok([]);
  }

  /** The first string shown after it fails. */
  lemma NonNumberFailsWhenShown(ctx: Context)
    requires "/F1" in ctx.fonts && !ctx.passText
    ensures TextShowOperations([Op([], BT), Op([NameOp("/F1"), Num(12.0)], Tf), Op([NameOp("/X")], Tc),
                                Op([Str("a")], Tj), Op([], ET)], ctx) == Err(TypeError)
  {
    var ops := [Op([], BT), Op([NameOp("/F1"), Num(12.0)], Tf), Op([NameOp("/X")], Tc), Op([Str("a")], Tj), Op([], ET)];
    ShownTextFails(ops, ctx);
    assert ops[0].operator.BT? && Block(ops, 0, Start(), ctx) == Err(TypeError);
    assert TextShow(ops, 0, Start(), ctx) == Err(TypeError);
  }

  /** The text object of `NonNumberFailsWhenShown`, walked to its `ET`. */
  lemma ShownTextFails(ops: seq<Op>, ctx: Context)
    requires "/F1" in ctx.fonts && !ctx.passText
    requires ops == [Op([], BT), Op([NameOp("/F1"), Num(12.0)], Tf), Op([NameOp("/X")], Tc), Op([Str("a")], Tj), Op([], ET)]
    ensures Recur(ops, 1, Start(), ET, ctx) == Err(TypeError)
  {
    SpacingStepFails(ops, ctx);
    assert ops[1] == Op([NameOp("/F1"), Num(12.0)], Tf) && ops[1].operator != ET;
    assert Single(Start(), ops[1], ctx) == Ok(Walk([], [], Fonted(ctx), 0));
  }

  /** From the `/X Tc` on. */
  lemma SpacingStepFails(ops: seq<Op>, ctx: Context)
    requires "/F1" in ctx.fonts && !ctx.passText
    requires |ops| > 3 && ops[2] == Op([NameOp("/X")], Tc) && ops[3] == Op([Str("a")], Tj)
    ensures Recur(ops, 2, Fonted(ctx), ET, ctx) == Err(TypeError)
  {
    var st := Spaced(ctx);
    assert Recur(ops, 3, st, ET, ctx) == Err(TypeError) by {
      StartHasMatrix();
      assert ShowOp(st, ops[3], ctx) == Err(TypeError);
    }
    assert Single(Fonted(ctx), ops[2], ctx) == Ok(Walk([], [], st, 0));
  }

  /** The top level passes over every operator other than `BT`, `q`, `Q`
      and `cm`: a text-showing operator outside `BT`/`ET` shows nothing. */
  lemma TopLevelIgnores(ops: seq<Op>, i: nat, st: State, ctx: Context)
    requires i < |ops| && Fits(st) && !(ops[i].operator.BT? || ops[i].operator.q? || ops[i].operator.Q? || ops[i].operator.cm?)
    ensures TextShow(ops, i, st, ctx) == TextShow(ops, i + 1, st, ctx)
  {
  }

  /** The page walk starts from a fresh text state. */
  function TextShowOperations(ops: seq<Op>, ctx: Context): (r: Result<seq<Group>>)
    ensures r.Ok? ==> |r.value| <= CountShow(ops, 0, |ops|)
    ensures ops == [] ==> r == Ok([])
  {
    TextShow(ops, 0, Start(), ctx)
  }

  // ---------------------------------------------------------------------
  // Rounding and line buckets
  // ---------------------------------------------------------------------

  /** `int(round(x))`: the nearest integer, ties to the even one. */
  function RoundHalfEven(x: real): (r: int)
    ensures r as real - x <= 0.5 && x - r as real <= 0.5
    ensures r as real - x == 0.5 || x - r as real == 0.5 ==> r % 2 == 0
  {
    var f := x.Floor;
    var d := x - f as real;
    if d < 0.5 then f else if d > 0.5 then f + 1 else if f % 2 == 0 then f else f + 1
  }

  /** The groups whose baseline rounds to `y`, in order. */
  function Bucket(gs: seq<Group>, y: int): (r: seq<Group>)
    ensures |r| <= |gs|
    ensures forall k :: 0 <= k < |r| ==> RoundHalfEven(r[k].ty) == y && r[k] in gs
  {
    if gs == [] then []
    else Bucket(gs[..|gs| - 1], y) + (if RoundHalfEven(gs[|gs| - 1].ty) == y then [gs[|gs| - 1]] else [])
  }

  /** A Python `dict` from baselines to groups: its keys in insertion
      order, and its entries. */
  datatype Lines = Lines(keys: seq<int>, rows: map<int, seq<Group>>)

  /** What every `dict` is: each key listed once, the listed keys exactly
      those with an entry. */
  predicate WellFormed(d: Lines)
  {
    (forall y :: y in d.rows ==> y in d.keys)
    && (forall y :: y in d.keys ==> y in d.rows)
    && forall i, j :: 0 <= i < j < |d.keys| ==> d.keys[i] != d.keys[j]
  }

  /** The first loop of `y_coordinate_groups`: each group appended to the
      list of its rounded baseline, a new baseline becoming the last key. */
  function Buckets(gs: seq<Group>): (r: Lines)
    ensures WellFormed(r)
  {
    if gs == [] then Lines([], map[])
    else
      var d := Buckets(gs[..|gs| - 1]);
      var g := gs[|gs| - 1];
      var y := RoundHalfEven(g.ty);
      if y in d.rows then Lines(d.keys, d.rows[y := d.rows[y] + [g]])
      else
        assert forall i :: 0 <= i < |d.keys| ==> d.keys[i] != y;
        Lines(d.keys + [y], d.rows[y := [g]])
  }

  /** No group rounds to `y`: its bucket is empty. */
  lemma {:induction false} BucketEmpty(gs: seq<Group>, y: int)
    requires forall k :: 0 <= k < |gs| ==> RoundHalfEven(gs[k].ty) != y
    ensures Bucket(gs, y) == []
  {
    if gs != [] {
      var init := gs[..|gs| - 1];
      assert forall k :: 0 <= k < |init| ==> init[k] == gs[k];
      BucketEmpty(init, y);
    }
  }

  /** The buckets hold exactly the rounded baselines, each the groups with
      that baseline in their original order. */
  lemma {:induction false} BucketsAreFilters(gs: seq<Group>)
    ensures forall y :: y in Buckets(gs).rows <==> exists k :: 0 <= k < |gs| && RoundHalfEven(gs[k].ty) == y
    ensures forall y :: y in Buckets(gs).rows ==> Buckets(gs).rows[y] == Bucket(gs, y)
  {
    if gs != [] {
      var init := gs[..|gs| - 1];
      BucketsAreFilters(init);
      var rows := Buckets(gs).rows;
      var before := Buckets(init).rows;
      forall y ensures y in rows <==> exists k :: 0 <= k < |gs| && RoundHalfEven(gs[k].ty) == y {
        if y in before {
          var k :| 0 <= k < |init| && RoundHalfEven(init[k].ty) == y;
          assert gs[k] == init[k];
        }
        if exists k :: 0 <= k < |gs| && RoundHalfEven(gs[k].ty) == y {
          var k :| 0 <= k < |gs| && RoundHalfEven(gs[k].ty) == y;
          if k < |gs| - 1 { assert init[k] == gs[k]; }
        }
      }
      forall y | y in rows ensures rows[y] == Bucket(gs, y) {
        if y !in before {
          BucketEmpty(init, y);
        }
      }
    }
  }

  predicate SortedByTx(s: seq<Group>)
  {
    forall i, j :: 0 <= i < j < |s| ==> s[i].tx <= s[j].tx
  }

  /** Insertion after every element with an `x` not above `g`'s. */
  function Insert(g: Group, s: seq<Group>): (r: seq<Group>)
    ensures multiset(r) == multiset(s) + multiset{g}
  {
    if s == [] then [g]
    else if s[0].tx > g.tx then [g] + s
    else
      assert s == [s[0]] + s[1..];
      [s[0]] + Insert(g, s[1..])
  }

  /** Insertion keeps a list sorted. */
  lemma {:induction false} InsertSorted(g: Group, s: seq<Group>)
    requires SortedByTx(s)
    ensures SortedByTx(Insert(g, s))
  {
    if s != [] && s[0].tx <= g.tx {
      var tail := s[1..];
      InsertSorted(g, tail);
      var r := Insert(g, tail);
      assert r[0] == g || (tail != [] && r[0] == tail[0]);
      forall k | 0 <= k < |r| ensures s[0].tx <= r[k].tx {
        assert k == 0 || r[0].tx <= r[k].tx;
      }
      assert Insert(g, s) == [s[0]] + r;
    } else if s != [] {
      assert Insert(g, s) == [g] + s;
    }
  }

  /** `list.sort(key=lambda g: g['tx'])`: a stable sort by `tx`. */
  function SortByTx(s: seq<Group>): (r: seq<Group>)
    ensures multiset(r) == multiset(s)
    ensures SortedByTx(r)
  {
    if s == [] then []
    else
      assert s == s[..|s| - 1] + [s[|s| - 1]];
      InsertSorted(s[|s| - 1], SortByTx(s[..|s| - 1]));
      Insert(s[|s| - 1], SortByTx(s[..|s| - 1]))
  }

  /** The groups with `x` equal to `t`, in order. */
  function WithTx(s: seq<Group>, t: real): seq<Group>
  {
    if s == [] then [] else (if s[0].tx == t then [s[0]] else []) + WithTx(s[1..], t)
  }

  lemma {:induction false} WithTxAppend(u: seq<Group>, v: seq<Group>, t: real)
    ensures WithTx(u + v, t) == WithTx(u, t) + WithTx(v, t)
  {
    if u != [] {
      assert (u + v)[0] == u[0];
      assert (u + v)[1..] == u[1..] + v;
      WithTxAppend(u[1..], v, t);
    } else {
      assert u + v == v;
    }
  }

  lemma {:induction false} InsertWithTx(g: Group, s: seq<Group>, t: real)
    requires SortedByTx(s)
    ensures WithTx(Insert(g, s), t) == WithTx(s, t) + (if g.tx == t then [g] else [])
  {
    if s == [] {
    } else if s[0].tx > g.tx {
      assert Insert(g, s) == [g] + s;
      WithTxCons(g, s, t);
      if g.tx == t {
        NoneAbove(s, t);
        assert WithTx(s, t) + [g] == [g];
      } else {
        assert WithTx(s, t) + [] == WithTx(s, t);
      }
    } else {
      InsertWithTx(g, s[1..], t);
      InsertWithTxStep(g, s, t);
    }
  }

  /** The step of `InsertWithTx` past a first element not above `g`. */
  lemma InsertWithTxStep(g: Group, s: seq<Group>, t: real)
    requires s != [] && s[0].tx <= g.tx
    requires WithTx(Insert(g, s[1..]), t) == WithTx(s[1..], t) + (if g.tx == t then [g] else [])
    ensures WithTx(Insert(g, s), t) == WithTx(s, t) + (if g.tx == t then [g] else [])
  {
    var r := Insert(g, s[1..]);
    var head := if s[0].tx == t then [s[0]] else [];
    var tail := if g.tx == t then [g] else [];
    calc {
      WithTx(Insert(g, s), t);
      { assert Insert(g, s) == [s[0]] + r; }
      WithTx([s[0]] + r, t);
      { WithTxCons(s[0], r, t); }
      head + WithTx(r, t);
      head + (WithTx(s[1..], t) + tail);
      { ConcatAssoc(head, WithTx(s[1..], t), tail); }
      (head + WithTx(s[1..], t)) + tail;
      { WithTxCons(s[0], s[1..], t); ConsTail(s); }
      WithTx(s, t) + tail;
    }
  }

  lemma ConcatAssoc<T>(a: seq<T>, b: seq<T>, c: seq<T>)
    ensures a + (b + c) == (a + b) + c
  {
  }

  lemma ConsTail<T>(s: seq<T>)
    requires s != []
    ensures [s[0]] + s[1..] == s
  {
  }

  lemma WithTxCons(x: Group, r: seq<Group>, t: real)
    ensures WithTx([x] + r, t) == (if x.tx == t then [x] else []) + WithTx(r, t)
  {
    assert ([x] + r)[1..] == r;
  }

  /** In a sorted list whose first element lies above `t`, none equals `t`. */
  lemma {:induction false} NoneAbove(s: seq<Group>, t: real)
    requires SortedByTx(s) && s != [] && s[0].tx > t
    ensures WithTx(s, t) == []
  {
    if |s| > 1 {
      NoneAbove(s[1..], t);
    }
  }

  /** The sort is stable: the groups with any one `x` keep their order. */
  lemma {:induction false} SortStable(s: seq<Group>, t: real)
    ensures WithTx(SortByTx(s), t) == WithTx(s, t)
  {
    if s != [] {
      var init := s[..|s| - 1];
      var g := s[|s| - 1];
      var sorted := SortByTx(init);
      assert SortByTx(s) == Insert(g, sorted);
      SortStable(init, t);
      InsertWithTx(g, sorted, t);
      SplitLast(s);
      WithTxAppend(init, [g], t);
      assert WithTx([g], t) == (if g.tx == t then [g] else []) by {
        assert [g][1..] == [];
      }
    }
  }

  lemma SplitLast(s: seq<Group>)
    requires s != []
    ensures s == s[..|s| - 1] + [s[|s| - 1]]
  {
  }

  /** `y_coordinate_groups(bt_groups)`: the buckets, each sorted by
      `x`, the keys in the order their baselines first appear. */
  function YGroups(gs: seq<Group>): (r: Lines)
    ensures WellFormed(r) && r.keys == Buckets(gs).keys
    ensures forall y :: y in r.rows ==> SortedByTx(r.rows[y]) && multiset(r.rows[y]) == multiset(Buckets(gs).rows[y])
  {
    var d := Buckets(gs);
    Lines(d.keys, map y | y in d.rows :: SortByTx(d.rows[y]))
  }

  /** Each line holds exactly the groups whose baseline rounds to it,
      sorted by `x`, equal `x` in their original order. */
  lemma YGroupsLines(gs: seq<Group>, y: int, t: real)
    ensures y in YGroups(gs).rows <==> exists k :: 0 <= k < |gs| && RoundHalfEven(gs[k].ty) == y
    ensures y in YGroups(gs).rows ==> multiset(YGroups(gs).rows[y]) == multiset(Bucket(gs, y))
                                      && WithTx(YGroups(gs).rows[y], t) == WithTx(Bucket(gs, y), t)
  {
    BucketsAreFilters(gs);
    if y in YGroups(gs).rows {
      SortStable(Bucket(gs, y), t);
    }
  }

  // ---------------------------------------------------------------------
  // Character width
  // ---------------------------------------------------------------------

  /** `len(text)`: strings, bytes and arrays have one; a number does not. */
  function Len(o: Operand): Result<nat>
  {
    match o
    case Str(s) => Ok(|s|)
    case NameOp(n) => Ok(|n|)
    case Raw(b) => Ok(|b|)
    case Arr(items) => Ok(|items|)
    case Num(_) => Err(TypeError)
  }

  /** The running `(total_width, total_weight)` over the groups with text;
      `weight(n)` stands for `n ** scale_weight`. */
  function Totals(gs: seq<Group>, weight: nat -> real): (r: Result<(real, real)>)
  {
    if gs == [] then Ok((0.0, 0.0))
    else
      var acc :- Totals(gs[..|gs| - 1], weight);
      Accumulate(acc, gs[|gs| - 1], weight)
  }

  /** One pass of the loop: a group with text adds its width per
      character, weighted, and its weight. */
  function Accumulate(acc: (real, real), g: Group, weight: nat -> real): (r: Result<(real, real)>)
    ensures r.Ok? <==> Len(g.text).Ok?
  {
    var n :- Len(g.text);
    if n > 0 then
      var width := (g.displacedTx - g.tx) / n as real;
      Ok((acc.0 + width * weight(n), acc.1 + weight(n)))
    else Ok(acc)
  }

  /** `fixed_char_width(bt_groups, scale_weight)`: the weighted average of
      the groups' widths per character, or 0 without any text. */
  function FixedCharWidth(gs: seq<Group>, weight: nat -> real): (r: Result<real>)
    ensures r.Ok? <==> Totals(gs, weight).Ok?
  {
    var t :- Totals(gs, weight);
    Ok(if t.1 > 0.0 then t.0 / t.1 else 0.0)
  }

  /** Every group with text spends `c` per character. */
  predicate Uniform(gs: seq<Group>, c: real)
  {
    forall k :: 0 <= k < |gs| ==> Len(gs[k].text).Ok? && (Len(gs[k].text).value > 0 ==>
      (gs[k].displacedTx - gs[k].tx) / Len(gs[k].text).value as real == c)
  }

  lemma {:induction false} TotalsUniform(gs: seq<Group>, weight: nat -> real, c: real)
    requires Uniform(gs, c)
    requires forall n: nat :: n > 0 ==> weight(n) > 0.0
    ensures Ratio(Totals(gs, weight), c)
  {
    if gs != [] {
      var init := gs[..|gs| - 1];
      assert Uniform(init, c) by {
        forall k | 0 <= k < |init| ensures init[k] == gs[k] { }
      }
      TotalsUniform(init, weight, c);
      var acc := Totals(init, weight).value;
      AccumulateUniform(acc, gs[|gs| - 1], weight, c);
      assert Totals(gs, weight) == Accumulate(acc, gs[|gs| - 1], weight);
    }
  }

  /** Totals whose width is `c` times their weight, the weight not
      negative. */
  predicate Ratio(t: Result<(real, real)>, c: real)
  {
    t.Ok? && t.value.0 == c * t.value.1 && t.value.1 >= 0.0
  }

  /** A group that spends `c` per character keeps the totals' ratio at
      `c` and their weight non-negative. */
  lemma AccumulateUniform(acc: (real, real), g: Group, weight: nat -> real, c: real)
    requires acc.0 == c * acc.1 && acc.1 >= 0.0
    requires Len(g.text).Ok? && (Len(g.text).value > 0 ==> (g.displacedTx - g.tx) / Len(g.text).value as real == c)
    requires forall n: nat :: n > 0 ==> weight(n) > 0.0
    ensures Ratio(Accumulate(acc, g, weight), c)
  {
    var n := Len(g.text).value;
    if n > 0 {
      var width := (g.displacedTx - g.tx) / n as real;
      var w := weight(n);
      UniformStep(acc.0, acc.1, width, w, c);
      var r := Accumulate(acc, g, weight);
      assert r.Ok? && r.value.0 == acc.0 + width * w && r.value.1 == acc.1 + w;
    }
  }

  /** One weighted step keeps the ratio. */
  lemma UniformStep(total: real, weights: real, width: real, w: real, c: real)
    requires total == c * weights && width == c
    ensures total + width * w == c * (weights + w)
  {
  }

  /** The total weight is positive exactly when some group has text. */
  lemma {:induction false} TotalsWeightPositive(gs: seq<Group>, weight: nat -> real)
    requires forall k :: 0 <= k < |gs| ==> Len(gs[k].text).Ok?
    requires forall n: nat :: n > 0 ==> weight(n) > 0.0
    ensures Totals(gs, weight).Ok? && Totals(gs, weight).value.1 >= 0.0
    ensures (exists k :: 0 <= k < |gs| && Len(gs[k].text).value > 0) <==> Totals(gs, weight).value.1 > 0.0
  {
    if gs != [] {
      var init := gs[..|gs| - 1];
      assert forall k :: 0 <= k < |init| ==> init[k] == gs[k];
      TotalsWeightPositive(init, weight);
      if exists k :: 0 <= k < |gs| && Len(gs[k].text).value > 0 {
        var k :| 0 <= k < |gs| && Len(gs[k].text).value > 0;
        if k < |gs| - 1 { assert init[k] == gs[k]; }
      }
    }
  }

  /** When every group with text spends the same width per character,
      that is the fixed width; without any text the width is 0.  The
      groups of the walk all end where they start, so their width is 0. */
  lemma FixedCharWidthUniform(gs: seq<Group>, weight: nat -> real, c: real)
    requires Uniform(gs, c)
    requires forall n: nat :: n > 0 ==> weight(n) > 0.0
    ensures FixedCharWidth(gs, weight).Ok?
    ensures (exists k :: 0 <= k < |gs| && Len(gs[k].text).value > 0) ==> FixedCharWidth(gs, weight).value == c
    ensures (forall k :: 0 <= k < |gs| ==> Len(gs[k].text).value == 0) ==> FixedCharWidth(gs, weight).value == 0.0
  {
    TotalsUniform(gs, weight, c);
    TotalsWeightPositive(gs, weight);
    var t := Totals(gs, weight).value;
    if t.1 > 0.0 {
      RatioDivides(t.0, t.1, c);
    }
  }

  lemma RatioDivides(total: real, weights: real, c: real)
    requires weights > 0.0 && total == c * weights
    ensures total / weights == c
  {
  }

  /** Groups that end where they start have a fixed width of 0. */
  lemma StationaryWidthZero(gs: seq<Group>, weight: nat -> real)
    requires forall k :: 0 <= k < |gs| ==> gs[k].displacedTx == gs[k].tx && Len(gs[k].text).Ok?
    requires forall n: nat :: n > 0 ==> weight(n) > 0.0
    ensures FixedCharWidth(gs, weight) == Ok(0.0)
  {
    assert Uniform(gs, 0.0);
    FixedCharWidthUniform(gs, weight, 0.0);
  }

  // ---------------------------------------------------------------------
  // The page text
  // ---------------------------------------------------------------------

  /** One group added to a line: spaces up to column `round(tx / cw)`,
      then the text.  A zero width is ZeroDivisionError and a text that is
      not a string is TypeError. */
  function AddGroup(line: string, g: Group, cw: real): (r: Result<string>)
    ensures r.Ok? <==> cw != 0.0 && IsText(g.text)
    ensures r.Ok? ==>
              var col := Max(|line|, RoundHalfEven(g.tx / cw));
              |r.value| == col + |TextOf(g.text)| && r.value[..|line|] == line
              && (forall k :: |line| <= k < col ==> r.value[k] == ' ')
              && r.value[col..] == TextOf(g.text)
  {
    if cw == 0.0 then Err(ZeroDivisionError)
    else
      var x := RoundHalfEven(g.tx / cw);
      var padded := if |line| < x then line + Repeat(" ", x - |line|) else line;
      assert forall k :: |line| <= k < |padded| ==> padded[k] == ' ' by {
        if |line| < x { SpacesAreSpaces(x - |line|); }
      }
      if !IsText(g.text) then Err(TypeError)
      else Ok(padded + TextOf(g.text))
  }

  lemma {:induction false} SpacesAreSpaces(n: int)
    ensures forall k :: 0 <= k < |Repeat(" ", n)| ==> Repeat(" ", n)[k] == ' '
    decreases n
  {
    if n > 0 {
      SpacesAreSpaces(n - 1);
    }
  }

  /** The line of one bucket, its groups added in order. */
  function Line(gs: seq<Group>, cw: real): (r: Result<string>)
    ensures gs != [] && cw == 0.0 ==> r == Err(ZeroDivisionError)
  {
    if gs == [] then Ok("")
    else
      var prefix :- Line(gs[..|gs| - 1], cw);
      AddGroup(prefix, gs[|gs| - 1], cw)
  }

  /** The line holds every group's text at or after the column its `x`
      asks for, in order: an earlier group's text is never overwritten. */
  lemma {:induction false} LineKeepsPrefix(gs: seq<Group>, cw: real, n: nat)
    requires n <= |gs| && Line(gs, cw).Ok?
    ensures Line(gs[..n], cw).Ok?
    ensures var p := Line(gs[..n], cw).value; |p| <= |Line(gs, cw).value| && Line(gs, cw).value[..|p|] == p
  {
    if n < |gs| {
      assert gs[..|gs| - 1][..n] == gs[..n];
      LineKeepsPrefix(gs[..|gs| - 1], cw, n);
    } else {
      assert gs[..n] == gs;
    }
  }

  /** The blank lines between the lines at `y` and `next`:
      `round((y - next) / (2 cw)) - 1`, none when that is negative. */
  function Blanks(y: int, next: int, cw: real): (r: Result<nat>)
    ensures r.Ok? <==> cw != 0.0
  {
    if cw == 0.0 then Err(ZeroDivisionError)
    else Ok(Max(0, RoundHalfEven((y - next) as real / (cw * 2.0)) - 1))
  }

  /** The lines of the keys `ys` in turn: each bucket's line without
      trailing whitespace, followed by its blank lines when spacing
      vertically and another key comes.  A key without an entry is a
      KeyError. */
  function PageLines(rows: map<int, seq<Group>>, ys: seq<int>, cw: real, spaceVertically: bool): (r: Result<seq<string>>)
    ensures r.Ok? ==> |r.value| >= |ys|
    ensures r.Ok? ==> forall j :: 0 <= j < |r.value| ==> r.value[j] == [] || !IsSpace(r.value[j][|r.value[j]| - 1])
  {
    if ys == [] then Ok([])
    else if ys[0] !in rows then Err(KeyError)
    else
      var line :- Line(rows[ys[0]], cw);
      var blanks :- if spaceVertically && |ys| > 1 then Blanks(ys[0], ys[1], cw) else Ok(0);
      var rest :- PageLines(rows, ys[1..], cw, spaceVertically);
      Ok(Stripped(line, blanks) + rest)
  }

  /** A line without its trailing whitespace, then `blanks` empty lines. */
  function Stripped(line: string, blanks: nat): (r: seq<string>)
    ensures |r| == 1 + blanks && r[0] == RStrip(line)
    ensures forall j :: 1 <= j < |r| ==> r[j] == ""
    ensures forall j :: 0 <= j < |r| ==> r[j] == [] || !IsSpace(r[j][|r[j]| - 1])
  {
    [RStrip(line)] + seq(blanks, _ => "")
  }

  /** One step of the page: the stripped line of the first key, its blank
      lines, then the rest of the page.  The blank lines between two
      consecutive lines number `round((y - next) / (2 cw)) - 1`, or none,
      and there are none without vertical spacing or after the last line. */
  lemma PageLinesStep(rows: map<int, seq<Group>>, ys: seq<int>, cw: real, sv: bool)
    requires ys != [] && PageLines(rows, ys, cw, sv).Ok?
    ensures ys[0] in rows && Line(rows[ys[0]], cw).Ok? && PageLines(rows, ys[1..], cw, sv).Ok?
    ensures sv && |ys| > 1 ==> Blanks(ys[0], ys[1], cw).Ok?
    ensures var b := if sv && |ys| > 1 then Blanks(ys[0], ys[1], cw).value else 0;
            PageLines(rows, ys, cw, sv).value
              == Stripped(Line(rows[ys[0]], cw).value, b) + PageLines(rows, ys[1..], cw, sv).value
  {
  }

  /** Without vertical spacing there is one line per key, each its
      bucket's line with the trailing whitespace stripped. */
  lemma {:induction false} PageLinesPlain(rows: map<int, seq<Group>>, ys: seq<int>, cw: real)
    requires PageLines(rows, ys, cw, false).Ok?
    ensures var r := PageLines(rows, ys, cw, false).value;
            |r| == |ys|
            && forall j :: 0 <= j < |ys| ==> ys[j] in rows && Line(rows[ys[j]], cw).Ok?
                                             && r[j] == RStrip(Line(rows[ys[j]], cw).value)
  {
    if ys != [] {
      PageLinesStep(rows, ys, cw, false);
      PageLinesPlain(rows, ys[1..], cw);
      var r := PageLines(rows, ys, cw, false).value;
      var rest := PageLines(rows, ys[1..], cw, false).value;
      assert r == [RStrip(Line(rows[ys[0]], cw).value)] + rest;
      forall j | 1 <= j < |ys|
        ensures ys[j] in rows && Line(rows[ys[j]], cw).Ok? && r[j] == RStrip(Line(rows[ys[j]], cw).value)
      {
        assert r[j] == rest[j - 1] && ys[j] == ys[1..][j - 1];
      }
    }
  }

  /** `fixed_width_page(ty_groups, char_width, space_vertically)`: the
      lines of the buckets from the highest baseline down, joined by
      newlines. */
  function FixedWidthPage(d: Lines, cw: real, spaceVertically: bool): (r: Result<string>)
    ensures d.keys == [] ==> r == Ok("")
  {
    var lines :- PageLines(d.rows, SortedDesc(d.keys), cw, spaceVertically);
    Ok(Join("\n", lines))
  }

  /** A zero character width fails the page as soon as a line holds a
      group. */
  lemma ZeroWidthFails(d: Lines, y: int, spaceVertically: bool)
    requires WellFormed(d) && y in d.rows && d.rows[y] != []
    ensures FixedWidthPage(d, 0.0, spaceVertically).Err?
  {
    var ys := SortedDesc(d.keys);
    assert y in d.keys;
    PageLinesFailAt(d.rows, ys, y, spaceVertically);
  }

  lemma {:induction false} PageLinesFailAt(rows: map<int, seq<Group>>, ys: seq<int>, y: int, sv: bool)
    requires y in ys && y in rows && rows[y] != []
    ensures PageLines(rows, ys, 0.0, sv).Err?
  {
    if ys[0] != y {
      PageLinesFailAt(rows, ys[1..], y, sv);
    }
  }
}
