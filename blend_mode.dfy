/** libjxl blend modes as the frame list stores them: as text in the blend column,
    as an index in the blend-mode combo box, and as the integer JxlBlendMode. */
module BlendModes {

  /** JxlBlendMode enumerator values. A value read from a configuration file is
      cast from an arbitrary integer, so other integers can occur. */
  const REPLACE: int := 0
  const ADD: int := 1
  const BLEND: int := 2
  const MULADD: int := 3
  const MUL: int := 4

  /** Index of the combo-box entry that means "leave the blend mode unchanged". */
  const UNCHANGED_INDEX: int := 5

  predicate IsNamed(m: int) {
    m == REPLACE || m == ADD || m == BLEND || m == MULADD || m == MUL
  }

  /** blendModeToString */
  function ToString(m: int): (s: string)
    ensures IsNamed(m) <==> s != ""
  {
    if m == ADD then "ADD"
    else if m == MULADD then "MULADD"
    else if m == MUL then "MUL"
    else if m == REPLACE then "REPLACE"
    else if m == BLEND then "BLEND"
    else ""
  }

  /** stringToBlendMode: an unrecognised string falls back to BLEND. */
  function FromString(s: string): (m: int)
    ensures IsNamed(m)
    ensures s != "ADD" && s != "MULADD" && s != "MUL" && s != "REPLACE" ==> m == BLEND
  {
    if s == "ADD" then ADD
    else if s == "MULADD" then MULADD
    else if s == "MUL" then MUL
    else if s == "REPLACE" then REPLACE
    else BLEND
  }

  /** The string codec round-trips every named mode. */
  lemma RoundTrip(m: int)
    requires IsNamed(m)
    ensures FromString(ToString(m)) == m
  {
  }

  /** Decoding is a left inverse of encoding on decoded values: re-encoding a decoded
      string and decoding it again changes nothing. */
  lemma FromStringStable(s: string)
    ensures FromString(ToString(FromString(s))) == FromString(s)
  {
    RoundTrip(FromString(s));
  }

  /** The blend-mode combo box when a frame is applied: entries 0..4 are BLEND,
      REPLACE, ADD, MULADD, MUL; any other index (only 5, "unchanged", is offered)
      falls back to BLEND. */
  function IndexToBlend(index: int): (m: int)
    ensures IsNamed(m)
    ensures !(0 <= index <= 4) ==> m == BLEND
  {
    if index == 0 then BLEND
    else if index == 1 then REPLACE
    else if index == 2 then ADD
    else if index == 3 then MULADD
    else if index == 4 then MUL
    else BLEND
  }

  /** The blend-mode combo box when a single frame is selected: the index showing
      mode `m`; an unnamed mode shows entry 0. */
  function BlendToIndex(m: int): (index: int)
    ensures 0 <= index <= 4
    ensures !IsNamed(m) ==> index == 0
  {
    if m == BLEND then 0
    else if m == REPLACE then 1
    else if m == ADD then 2
    else if m == MULADD then 3
    else if m == MUL then 4
    else 0
  }

  /** The two combo mappings are inverse bijections between 0..4 and the named modes. */
  lemma IndexCodecInverse(index: int, m: int)
    ensures 0 <= index <= 4 ==> BlendToIndex(IndexToBlend(index)) == index
    ensures IsNamed(m) ==> IndexToBlend(BlendToIndex(m)) == m
  {
  }

  /** Choosing entry `index` of the combo box for a frame, then selecting that frame
      alone, shows entry `index` again: the blend column text written by the edit is
      read back through stringToBlendMode. */
  lemma ComboRoundTripThroughText(index: int)
    requires 0 <= index <= 4
    ensures BlendToIndex(FromString(ToString(IndexToBlend(index)))) == index
  {
    RoundTrip(IndexToBlend(index));
    IndexCodecInverse(index, 0);
  }
}
