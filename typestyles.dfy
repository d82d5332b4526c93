/**
 * The card's colours: a table from each Pokemon type name to a background
 * and a border colour, and the style built from a Pokemon's list of types.
 * One type gives plain colours; two or more give a diagonal split into two
 * halves, the first type's colour on one side and the second type's on the
 * other. A type name the table does not hold makes the source throw (it
 * reads a property of `undefined`); the model returns `None` there.
 */
module TypeStyles {
  import opened Wrappers

  /** The two colours of one type, as CSS hex strings. */
  datatype Colours = Colours(bg: string, border: string)

  /** The inline style of the card. */
  datatype Style =
    | Solid(backgroundColor: string, borderColor: string)
    | Gradient(backgroundImage: string, borderImage: string, borderStyle: string, borderWidth: string)

  /** The colour of every type the card knows. */
  const TypeColours: map<string, Colours> := map[
    "normal" := Colours("#A8A77A", "#6D6D4E"),
    "fire" := Colours("#EE8130", "#AB5500"),
    "water" := Colours("#6390F0", "#0A75BC"),
    "grass" := Colours("#7AC74C", "#3C824E"),
    "electric" := Colours("#F7D02C", "#AA9900"),
    "ice" := Colours("#96D9D6", "#50A8A7"),
    "fighting" := Colours("#C22E28", "#831717"),
    "poison" := Colours("#A33EA1", "#6C1A68"),
    "ground" := Colours("#E2BF65", "#B3851A"),
    "flying" := Colours("#A98FF3", "#7364AA"),
    "psychic" := Colours("#F95587", "#AA3363"),
    "bug" := Colours("#A6B91A", "#727C11"),
    "rock" := Colours("#B6A136", "#817524"),
    "ghost" := Colours("#735797", "#493763"),
    "dragon" := Colours("#6F35FC", "#4321A3"),
    "dark" := Colours("#705746", "#4E3C32"),
    "steel" := Colours("#B7B7CE", "#85859B"),
    "fairy" := Colours("#D685AD", "#A64D7D")
  ]

  /**
   * A colour written as the table writes it, `#RRGGBB`: seven characters.
   * Reading a gradient back relies on this length and nothing else.
   */
  predicate IsColourCode(c: string)
  {
    |c| == 7
  }

  const GradientHead: string := "linear-gradient(135deg, "
  const GradientJoin: string := " 50%, "
  const GradientTail: string := " 50%)"

  /**
   * Reads the two colours back out of a split gradient; `None` when `s` is
   * not such a gradient between two colour codes.
   */
  function GradientColours(s: string): (r: Option<(string, string)>)
    ensures r.Some? ==> IsColourCode(r.value.0) && IsColourCode(r.value.1)
  {
    var a := |GradientHead|;
    var b := a + 7 + |GradientJoin|;
    var n := b + 7 + |GradientTail|;
    if |s| == n && s[..a] == GradientHead && s[a + 7..b] == GradientJoin && s[b + 7..] == GradientTail
       && IsColourCode(s[a..a + 7]) && IsColourCode(s[b..b + 7])
    then Some((s[a..a + 7], s[b..b + 7]))
    else None
  }

  /**
   * A 135-degree gradient with a hard stop halfway: `first` above the
   * diagonal, `second` below. Reading the colours back gives the two colour
   * codes it was built from, in order.
   */
  function LinearGradient(first: string, second: string): (g: string)
    ensures IsColourCode(first) && IsColourCode(second) ==> GradientColours(g) == Some((first, second))
  {
    var g := GradientHead + first + GradientJoin + second + GradientTail;
    var a := |GradientHead|;
    var b := a + 7 + |GradientJoin|;
    if IsColourCode(first) && IsColourCode(second) then
      assert g[..a] == GradientHead && g[a..a + 7] == first && g[a + 7..b] == GradientJoin;
      assert g[b..b + 7] == second && g[b + 7..] == GradientTail;
      g
    else g
  }

  /** Whatever the colours are read back from is exactly the gradient between them. */
  lemma GradientColoursExact(s: string)
    requires GradientColours(s).Some?
    ensures s == LinearGradient(GradientColours(s).value.0, GradientColours(s).value.1)
  {
    var a := |GradientHead|;
    var b := a + 7 + |GradientJoin|;
    assert s == s[..a] + s[a..a + 7] + s[a + 7..b] + s[b..b + 7] + s[b + 7..];
  }

  /** Different pairs of colours give different gradients. */
  lemma GradientInjective(a1: string, b1: string, a2: string, b2: string)
    requires IsColourCode(a1) && IsColourCode(b1) && IsColourCode(a2) && IsColourCode(b2)
    requires LinearGradient(a1, b1) == LinearGradient(a2, b2)
    ensures a1 == a2 && b1 == b2
  {
    assert GradientColours(LinearGradient(a1, b1)) == Some((a1, b1));
  }

  /** Every colour in the table is a seven-character code. */
  lemma TableColourCodes()
    ensures forall t :: t in TypeColours ==> IsColourCode(TypeColours[t].bg) && IsColourCode(TypeColours[t].border)
  {
  }

  /** Whether the source finds colours for the types it reads: the first, and the second when there are two or more. */
  predicate KnownTypes(types: seq<string>)
  {
    |types| >= 1 && types[0] in TypeColours && (|types| >= 2 ==> types[1] in TypeColours)
  }

  /**
   * The card's style for a Pokemon's types. `None` is the `TypeError` the
   * source throws when a colour it reads is missing: an empty list, or a
   * first or second type that is not in the table.
   */
  function GetTypeStyles(types: seq<string>): (r: Option<Style>)
    ensures r.Some? <==> KnownTypes(types)
    ensures r.Some? ==> (r.value.Solid? <==> |types| == 1)
    ensures r.Some? && r.value.Solid? ==>
      r.value.backgroundColor == TypeColours[types[0]].bg && r.value.borderColor == TypeColours[types[0]].border
    ensures r.Some? && r.value.Gradient? ==> r.value.borderStyle == "solid" && r.value.borderWidth == "4px"
  {
    if |types| == 1 then
      if types[0] in TypeColours then
        var colour := TypeColours[types[0]];
        Some(Solid(colour.bg, colour.border))
      else None
    else if |types| == 0 || types[0] !in TypeColours || types[1] !in TypeColours then None
    else
      var colour1, colour2 := TypeColours[types[0]], TypeColours[types[1]];
      Some(Gradient(LinearGradient(colour1.bg, colour2.bg),
                    LinearGradient(colour1.border, colour2.border) + " 1",
                    "solid", "4px"))
  }

  /**
   * A card of two or more types is split between the first two types'
   * colours: reading the background and the border image back gives those
   * colours, first type first; the border image's slice is 1.
   */
  lemma DualTypeColours(types: seq<string>)
    requires KnownTypes(types) && |types| >= 2
    ensures var s := GetTypeStyles(types).value;
      && s.Gradient?
      && GradientColours(s.backgroundImage) == Some((TypeColours[types[0]].bg, TypeColours[types[1]].bg))
      && |s.borderImage| >= 2 && s.borderImage[|s.borderImage| - 2..] == " 1"
      && GradientColours(s.borderImage[..|s.borderImage| - 2])
         == Some((TypeColours[types[0]].border, TypeColours[types[1]].border))
  {
    var c1, c2 := TypeColours[types[0]], TypeColours[types[1]];
    TableColourCodes();
    var border := LinearGradient(c1.border, c2.border);
    assert (border + " 1")[..|border|] == border;
  }

  /** Only the first two types count: a third and later ones change nothing. */
  lemma OnlyFirstTwoTypes(types: seq<string>)
    requires |types| >= 2
    ensures GetTypeStyles(types) == GetTypeStyles(types[..2])
  {
  }
}
