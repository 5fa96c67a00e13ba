/** The colour-space to PIL image-mode mapping of
    `pypdf/_xobj_image_helpers.py`: device colour spaces name their mode,
    `/ICCBased` and `/Indexed` arrays are looked through, the number of
    colour components decides otherwise, and a nesting bound stops the
    descent. */
module ImageMode {
  import opened PdfObjects

  /** `mode_str_type`: `''`, `'1'`, `'RGB'`, `'2bits'`, `'4bits'`, `'P'`,
      `'L'`, `'RGBA'`, `'CMYK'`. */
  datatype Mode = Empty | One | RGB | Bits2 | Bits4 | P | L | RGBA | CMYK

  /** `MAX_IMAGE_MODE_NESTING_DEPTH`. */
  const MaxNestingDepth: int := 10

  /** The modes the component count alone decides: 1 is grey, 3 is RGB and
      4 is CMYK (which needs inverting); any other count keeps the previous
      mode. */
  function ComponentMode(components: int, prev: Mode): (Mode, bool)
  {
    if components == 1 then (L, false)
    else if components == 3 then (RGB, false)
    else if components == 4 then (CMYK, true)
    else (prev, false)
  }

  /** The colour space names a device space: `/DeviceRGB`, `/DeviceCMYK` or
      `/DeviceGray`. */
  predicate IsDeviceSpace(cs: Obj)
  {
    StrEq(cs, "/DeviceRGB") || StrEq(cs, "/DeviceCMYK") || StrEq(cs, "/DeviceGray")
  }

  /** An array the mapping looks through: `[/ICCBased x ...]` or
      `[/Indexed x ...]`, whose second element is examined next. */
  predicate IsWrapper(cs: Obj)
  {
    cs.Array? && |cs.items| > 1
    && (StrEq(cs.items[0], "/ICCBased") || StrEq(cs.items[0], "/Indexed"))
  }

  /** `_get_imagemode(color_space, color_components, prev_mode, depth)`:
      the image mode and whether the colours must be inverted. */
  function GetImageMode(cs: Obj, components: int, prev: Mode, depth: int): (r: (Mode, bool))
    ensures depth > MaxNestingDepth ==> r == (prev, false)
    ensures r.1 ==> r.0 == CMYK
    ensures r.0 in {prev, L, RGB, CMYK}
    ensures depth <= MaxNestingDepth && !IsDeviceSpace(cs) && !IsWrapper(cs)
            ==> r == (if components == 1 then (L, false) else if components == 3 then (RGB, false)
                      else if components == 4 then (CMYK, true) else (prev, false))
    decreases if depth > MaxNestingDepth then 0 else MaxNestingDepth + 1 - depth
  {
    if depth > MaxNestingDepth then (prev, false)
    else if IsStr(cs) && StrOf(cs) == "/DeviceRGB" then (RGB, false)
    else if IsStr(cs) && StrOf(cs) == "/DeviceCMYK" then (CMYK, true)
    else if IsStr(cs) && StrOf(cs) == "/DeviceGray" then (L, false)
    else if cs.Array? && |cs.items| > 0 && StrEq(cs.items[0], "/ICCBased") && |cs.items| > 1 then
      GetImageMode(cs.items[1], components, prev, depth + 1)
    else if cs.Array? && |cs.items| > 0 && StrEq(cs.items[0], "/Indexed") && |cs.items| > 1 then
      GetImageMode(cs.items[1], components, prev, depth + 1)
    else ComponentMode(components, prev)
  }

  /** The device spaces map to their modes at any depth within the bound,
      whatever the component count; only `/DeviceCMYK` inverts. */
  lemma DeviceSpaces(components: int, prev: Mode, depth: int)
    requires depth <= MaxNestingDepth
    ensures GetImageMode(Name("/DeviceRGB"), components, prev, depth) == (RGB, false)
    ensures GetImageMode(Name("/DeviceCMYK"), components, prev, depth) == (CMYK, true)
    ensures GetImageMode(Name("/DeviceGray"), components, prev, depth) == (L, false)
    ensures GetImageMode(Text("/DeviceCMYK"), components, prev, depth) == (CMYK, true)
  {
  }

  /** `x` wrapped in `n` arrays `[tag x]`, the tag being `/ICCBased` or
      `/Indexed`. */
  function Wrap(x: Obj, tag: string, n: nat): (r: Obj)
    ensures n > 0 ==> r.Array? && |r.items| == 2 && r.items[0] == Name(tag)
  {
    if n == 0 then x else Array([Name(tag), Wrap(x, tag, n - 1)])
  }

  /** Looking through `n` wrappers costs `n` levels of depth: the inner
      colour space decides if it is reached within the bound, and the
      previous mode is kept, uninverted, if it is not. */
  lemma WrapDepth(x: Obj, tag: string, n: nat, components: int, prev: Mode, depth: int)
    requires tag == "/ICCBased" || tag == "/Indexed"
    ensures GetImageMode(Wrap(x, tag, n), components, prev, depth)
         == if depth + n > MaxNestingDepth then (prev, false)
            else GetImageMode(x, components, prev, depth + n)
  {
    if depth + n > MaxNestingDepth {
      WrapBeyond(x, tag, n, components, prev, depth);
    } else {
      WrapWithin(x, tag, n, components, prev, depth);
    }
  }

  lemma {:induction false} WrapWithin(x: Obj, tag: string, n: nat, components: int, prev: Mode, depth: int)
    requires tag == "/ICCBased" || tag == "/Indexed"
    requires depth + n <= MaxNestingDepth
    ensures GetImageMode(Wrap(x, tag, n), components, prev, depth) == GetImageMode(x, components, prev, depth + n)
    decreases n
  {
    if n > 0 {
      WrapStep(x, tag, n, components, prev, depth);
      WrapWithin(x, tag, n - 1, components, prev, depth + 1);
    }
  }

  lemma {:induction false} WrapBeyond(x: Obj, tag: string, n: nat, components: int, prev: Mode, depth: int)
    requires tag == "/ICCBased" || tag == "/Indexed"
    requires depth + n > MaxNestingDepth
    ensures GetImageMode(Wrap(x, tag, n), components, prev, depth) == (prev, false)
    decreases n
  {
    if depth <= MaxNestingDepth {
      WrapStep(x, tag, n, components, prev, depth);
      WrapBeyond(x, tag, n - 1, components, prev, depth + 1);
    }
  }

  /** One wrapper within the bound passes to its inner colour space one
      level deeper. */
  lemma WrapStep(x: Obj, tag: string, n: nat, components: int, prev: Mode, depth: int)
    requires tag == "/ICCBased" || tag == "/Indexed"
    requires n > 0 && depth <= MaxNestingDepth
    ensures GetImageMode(Wrap(x, tag, n), components, prev, depth)
         == GetImageMode(Wrap(x, tag, n - 1), components, prev, depth + 1)
  {
    assert Wrap(x, tag, n).items[1] == Wrap(x, tag, n - 1);
  }

  /** From the top level, `/DeviceRGB` inside ten `/ICCBased` arrays is
      still RGB, inside eleven the previous mode comes back. */
  lemma NestingBound(prev: Mode)
    ensures GetImageMode(Wrap(Name("/DeviceRGB"), "/ICCBased", 10), 0, prev, 0) == (RGB, false)
    ensures GetImageMode(Wrap(Name("/DeviceRGB"), "/ICCBased", 11), 0, prev, 0) == (prev, false)
  {
    WrapDepth(Name("/DeviceRGB"), "/ICCBased", 10, 0, prev, 0);
    WrapDepth(Name("/DeviceRGB"), "/ICCBased", 11, 0, prev, 0);
  }
}
