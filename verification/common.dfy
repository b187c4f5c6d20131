/** The shared helpers of Common/common.hpp: the real minimum and
    maximum, the enumeration-to-name mappings of the scene format, and
    the medium-type bit flags. */
module Common {

  function Minimum(lhs: real, rhs: real): (r: real)
    ensures r <= lhs && r <= rhs
    ensures r == lhs || r == rhs
  {
    if lhs > rhs then rhs else lhs
  }

  function Maximum(lhs: real, rhs: real): (r: real)
    ensures r >= lhs && r >= rhs
    ensures r == lhs || r == rhs
  {
    if lhs < rhs then rhs else lhs
  }

  /** The two together keep both arguments: they are the sorted pair. */
  lemma MinMaxPair(a: real, b: real)
    ensures Minimum(a, b) + Maximum(a, b) == a + b
    ensures Minimum(a, b) == Minimum(b, a) && Maximum(a, b) == Maximum(b, a)
    ensures Minimum(a, b) <= Maximum(a, b)
  {
  }

  // ---------------------------------------------------------------------
  // Enumeration names. The enumerations are C enums, so any int can reach
  // the switch; the default branch answers like the first enumerator.

  const TextureOff: int := 0
  const TextureRepeat: int := 1
  const TextureMirror: int := 2

  function GetTextureModeStr(mode: int): (s: string)
    ensures mode == TextureRepeat ==> s == "repeat"
    ensures mode == TextureMirror ==> s == "mirror"
    ensures mode != TextureRepeat && mode != TextureMirror ==> s == "off"
  {
    if mode == TextureOff then "off"
    else if mode == TextureRepeat then "repeat"
    else if mode == TextureMirror then "mirror"
    else "off"
  }

  /** The reading of a texture-mode name back, the inverse of the naming
      on the three enumerators. */
  function TextureModeOf(s: string): (mode: int)
    ensures 0 <= mode <= 2
  {
    if s == "repeat" then TextureRepeat else if s == "mirror" then TextureMirror else TextureOff
  }

  lemma TextureModeNames(mode: int)
    ensures 0 <= mode <= 2 ==> TextureModeOf(GetTextureModeStr(mode)) == mode
    ensures !(0 <= mode <= 2) ==> GetTextureModeStr(mode) == GetTextureModeStr(TextureOff)
  {
  }

  const SphereMapping: int := 0
  const CylindricMapping: int := 1
  const CubeMapping: int := 2

  function GetTypeStr(kind: int): (s: string)
    ensures kind == CylindricMapping ==> s == "Cylindric"
    ensures kind == CubeMapping ==> s == "Cube"
    ensures kind != CylindricMapping && kind != CubeMapping ==> s == "Sphere"
  {
    if kind == SphereMapping then "Sphere"
    else if kind == CylindricMapping then "Cylindric"
    else if kind == CubeMapping then "Cube"
    else "Sphere"
  }

  function EnvironmentTypeOf(s: string): (kind: int)
    ensures 0 <= kind <= 2
  {
    if s == "Cylindric" then CylindricMapping else if s == "Cube" then CubeMapping else SphereMapping
  }

  lemma EnvironmentTypeNames(kind: int)
    ensures 0 <= kind <= 2 ==> EnvironmentTypeOf(GetTypeStr(kind)) == kind
    ensures !(0 <= kind <= 2) ==> GetTypeStr(kind) == GetTypeStr(SphereMapping)
  {
  }

  const AxisX: int := 0
  const AxisY: int := 1
  const AxisZ: int := 2

  function GetAxisStr(axis: int): (s: string)
    ensures axis == AxisY ==> s == "y"
    ensures axis == AxisZ ==> s == "z"
    ensures axis != AxisY && axis != AxisZ ==> s == "x"
  {
    if axis == AxisX then "x"
    else if axis == AxisY then "y"
    else if axis == AxisZ then "z"
    else "x"
  }

  function AxisOf(s: string): (axis: int)
    ensures 0 <= axis <= 2
  {
    if s == "y" then AxisY else if s == "z" then AxisZ else AxisX
  }

  lemma AxisNames(axis: int)
    ensures 0 <= axis <= 2 ==> AxisOf(GetAxisStr(axis)) == axis
    ensures !(0 <= axis <= 2) ==> GetAxisStr(axis) == GetAxisStr(AxisX)
  {
  }

  // ---------------------------------------------------------------------
  // MediumType: flags combined with bitwise or.

  type Flags = bv8

  const MediumReflectance: Flags := 1
  const MediumTransmittance: Flags := 2
  const MediumIndice: Flags := 4
  const MediumPigment: Flags := 8

  /** The type of a medium described by the chosen properties. */
  function MediumType(reflectance: bool, transmittance: bool, indice: bool, pigment: bool): Flags {
    (if reflectance then MediumReflectance else 0)
    | (if transmittance then MediumTransmittance else 0)
    | (if indice then MediumIndice else 0)
    | (if pigment then MediumPigment else 0)
  }

  predicate Has(t: Flags, flag: Flags) {
    t & flag != 0
  }

  /** Each flag is a single bit of its own, so a combined type tells
      exactly which properties were chosen. */
  lemma MediumFlagsDecode(reflectance: bool, transmittance: bool, indice: bool, pigment: bool)
    ensures var t := MediumType(reflectance, transmittance, indice, pigment);
            && (Has(t, MediumReflectance) <==> reflectance)
            && (Has(t, MediumTransmittance) <==> transmittance)
            && (Has(t, MediumIndice) <==> indice)
            && (Has(t, MediumPigment) <==> pigment)
  {
  }

  lemma MediumFlagsDistinct()
    ensures MediumReflectance & MediumTransmittance == 0 && MediumReflectance & MediumIndice == 0
    ensures MediumReflectance & MediumPigment == 0 && MediumTransmittance & MediumIndice == 0
    ensures MediumTransmittance & MediumPigment == 0 && MediumIndice & MediumPigment == 0
  {
  }
}
