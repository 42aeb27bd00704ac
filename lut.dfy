/** `mapColorLUT`: the look-up table that picks an `HSB` delta for a colour from its
    luma band (six bands) and, within the band, its hue cell (ten cells of the colour
    wheel). Every entry of the table is currently the zero delta. */
module ColorLut {
  import opened Options
  import opened Adjustments
  import opened AwtColor
  import opened Colors

  /** The luma band edges: band `k` covers `[LumaEdges[k], LumaEdges[k + 1])`, the last
      band includes 1.0 as well. The bands are: darkest backgrounds, darkish, normal low
      text and parameters, keywords / numbers / classes, text, everything else. */
  const LumaEdges: seq<real> := [0.0, 0.15, 0.35, 0.42, 0.60, 0.75, 1.0]

  const BandCount := 6
  const CellCount := 10

  /** The outer `when (c.luma)`: the band whose range holds `luma`, or None for the
      `else` branch (a luma outside [0, 1]). */
  function LumaBand(luma: real): (band: Option<nat>)
    ensures band.Some? <==> 0.0 <= luma <= 1.0
    ensures band.Some? ==> band.value < BandCount && LumaEdges[band.value] <= luma
    ensures band.Some? ==> luma < LumaEdges[band.value + 1] || (band.value == BandCount - 1 && luma == 1.0)
  {
    if 0.0 <= luma < 0.15 then Some(0)
    else if 0.15 <= luma < 0.35 then Some(1)
    else if 0.35 <= luma < 0.42 then Some(2)
    else if 0.42 <= luma < 0.60 then Some(3)
    else if 0.60 <= luma < 0.75 then Some(4)
    else if 0.75 <= luma <= 1.0 then Some(5)
    else None
  }

  /** The hue cell edges of a band, in degrees: cell `k` covers `[edges[k], edges[k + 1])`,
      the last cell includes 360 as well. The keyword band (3) moves the edge between
      light green - teal and teal - blue from 180 to 190. */
  function HueEdges(band: nat): (edges: seq<int>)
    ensures |edges| == CellCount + 1 && edges[0] == 0 && edges[CellCount] == 360
    ensures forall k :: 0 <= k < CellCount ==> edges[k] < edges[k + 1]
  {
    [0, 35, 70, 105, 145, if band == 3 then 190 else 180, 215, 250, 285, 320, 360]
  }

  /** The inner `when (c.hue)` of band `band`: the cell whose range holds `hue`, or None
      for the `else` branch (a hue outside 0..360). */
  function HueCell(band: nat, hue: int): (cell: Option<nat>)
    ensures cell.Some? <==> 0 <= hue <= 360
    ensures cell.Some? ==> cell.value < CellCount && HueEdges(band)[cell.value] <= hue
    ensures cell.Some? ==> hue < HueEdges(band)[cell.value + 1] || (cell.value == CellCount - 1 && hue == 360)
  {
    var tealEdge := if band == 3 then 190 else 180;
    if 0 <= hue < 35 then Some(0)
    else if 35 <= hue < 70 then Some(1)
    else if 70 <= hue < 105 then Some(2)
    else if 105 <= hue < 145 then Some(3)
    else if 145 <= hue < tealEdge then Some(4)
    else if tealEdge <= hue < 215 then Some(5)
    else if 215 <= hue < 250 then Some(6)
    else if 250 <= hue < 285 then Some(7)
    else if 285 <= hue < 320 then Some(8)
    else if 320 <= hue <= 360 then Some(9)
    else None
  }

  /** One luma band of the table: the delta every colour of the band gets, and the
      delta of each hue cell added to it. */
  datatype Band = Band(base: Hsb, cells: seq<Hsb>)

  /** The ten cells of a band as the table has them. */
  const ZeroCells: seq<Hsb> := [
    Hsb(0, 0.0, 0.0), Hsb(0, 0.0, 0.0), Hsb(0, 0.0, 0.0), Hsb(0, 0.0, 0.0), Hsb(0, 0.0, 0.0),
    Hsb(0, 0.0, 0.0), Hsb(0, 0.0, 0.0), Hsb(0, 0.0, 0.0), Hsb(0, 0.0, 0.0), Hsb(0, 0.0, 0.0)]

  /** The table, band by band. */
  const Table: seq<Band> := [
    Band(Hsb(0, 0.0, 0.0), ZeroCells),
    Band(Hsb(0, 0.0, 0.0), ZeroCells),
    Band(Hsb(0, 0.0, 0.0), ZeroCells),
    Band(Hsb(0, 0.0, 0.0), ZeroCells),
    Band(Hsb(0, 0.0, 0.0), ZeroCells),
    Band(Hsb(0, 0.0, 0.0), ZeroCells)]

  /** `mapColorLUT` on a colour's luma and hue: the band's base delta plus the cell's.
      The outer `else` gives the zero delta, the inner one the band's base delta alone. */
  function Lookup(luma: real, hue: int): (d: Hsb)
    ensures LumaBand(luma).None? ==> d == Zero
    ensures LumaBand(luma).Some? && HueCell(LumaBand(luma).value, hue).None? ==>
              d == Table[LumaBand(luma).value].base
  {
    match LumaBand(luma)
    case None => Hsb(0, 0.0, 0.0)
    case Some(band) =>
      var b := Table[band];
      b.base.Plus(
        match HueCell(band, hue)
        case None => Hsb(0, 0.0, 0.0)
        case Some(cell) => b.cells[cell])
  }

  /** `mapColorLUT(c)`: with the current table, the zero delta for every colour. */
  function MapColorLut(c: Clr): (d: Hsb)
    ensures d == Zero
  {
    LookupIsZero(c.Luma(), c.Hue());
    Lookup(c.Luma(), c.Hue())
  }

  // ---------------------------------------------------------------- properties

  /** Every luma in [0, 1] lies in exactly one band: bands do not overlap. */
  lemma BandsArePartition(luma: real, band: nat)
    requires band < BandCount
    requires LumaEdges[band] <= luma
    requires luma < LumaEdges[band + 1] || (band == BandCount - 1 && luma == 1.0)
    ensures LumaBand(luma) == Some(band)
  {
  }

  /** Every hue in 0..360 lies in exactly one cell of a band: cells do not overlap. */
  lemma CellsArePartition(band: nat, hue: int, cell: nat)
    requires cell < CellCount
    requires HueEdges(band)[cell] <= hue
    requires hue < HueEdges(band)[cell + 1] || (cell == CellCount - 1 && hue == 360)
    ensures HueCell(band, hue) == Some(cell)
  {
  }

  /** A colour always lands in a band and a cell: neither `else` branch is reachable
      from a colour, and the closed end (hue 360) of the last cell is never used. */
  lemma EveryColourHasCell(c: Clr)
    ensures LumaBand(c.Luma()).Some?
    ensures var band := LumaBand(c.Luma()).value;
            HueCell(band, c.Hue()).Some? && HueEdges(band)[HueCell(band, c.Hue()).value] <= c.Hue() < HueEdges(band)[HueCell(band, c.Hue()).value + 1]
  {
  }

  /** The keyword band counts hues 180..189 as light green - teal (cell 4) where every
      other band counts them as teal - blue (cell 5). */
  lemma KeywordTealEdge(band: nat, hue: int)
    requires band < BandCount && 180 <= hue < 190
    ensures HueCell(band, hue) == if band == 3 then Some(4) else Some(5)
  {
  }

  /** Every entry of the current table is the zero delta, so the look-up returns the
      zero delta for any luma and hue. */
  lemma LookupIsZero(luma: real, hue: int)
    ensures Lookup(luma, hue) == Zero
  {
    match LumaBand(luma)
    case None =>
    case Some(band) =>
      assert Table[band].base == Zero && forall k :: 0 <= k < CellCount ==> Table[band].cells[k] == Zero;
  }

  /** The "numbers" sample 58858C (red 88, green 133, blue 140): luma 0.4719..., so the
      keyword band, and hue 188, so the light green - teal cell there although any other
      band would put it in teal - blue. */
  lemma NumbersSampleCell(c: Clr)
    requires c.rgb == 0x58858C
    ensures LumaBand(c.Luma()) == Some(3)
    ensures c.Hue() == 188 && HueCell(3, c.Hue()) == Some(4) && HueCell(4, c.Hue()) == Some(5)
  {
    assert c.Red() == 88 && c.Green() == 133 && c.Blue() == 140;
    assert c.Luma() == 120.343 / 255.0;
    assert c.HsbFractions().hue == 163.0 / 312.0 by {
      assert Max3(88, 133, 140) == 140 && Min3(88, 133, 140) == 88;
      assert HueFraction(88, 133, 140) == 163.0 / 312.0;
    }
  }
}
