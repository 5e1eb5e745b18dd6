/**
 * The constant tables of the editor (js/app.js): the ASCII characters an
 * overlay font may replace, the Betaflight glyph label table, and the
 * swap targets (icon slots that can be filled from another font).
 */
module AppTables {
  import opened Wrappers
  import opened Text
  import opened DomUtils

  // ---------------------------------------------------------------------
  // REPLACE_CHARS / REPLACE_SET / isReplaceable

  /** The replaceable ASCII characters, in mcmedit's order: every printable
      character from space to underscore except the dollar sign. */
  const ReplaceChars: string := " !\"#%&'()*+,-./" + "0123456789:;<=>?" + "@ABCDEFGHIJKLMNO" + "PQRSTUVWXYZ[\\]^_"

  /** `REPLACE_SET`: the character codes of ReplaceChars. */
  function ReplaceSet(): set<int>
  {
    set i | 0 <= i < |ReplaceChars| :: ReplaceChars[i] as int
  }

  predicate IsReplaceable(idx: int)
  {
    idx in ReplaceSet()
  }

  /** The code at position i of ReplaceChars: 0x20 + i before the gap at
      '$' and 0x21 + i after it. */
  function CodeAt(i: int): int
  {
    if i < 4 then 0x20 + i else 0x21 + i
  }

  /** The table written out: 63 characters laid out as CodeAt says. */
  lemma ReplaceCharsLayout()
    ensures |ReplaceChars| == 63
    ensures forall i :: 0 <= i < 63 ==> ReplaceChars[i] as int == CodeAt(i)
  {
    forall i | 0 <= i < 63
      ensures ReplaceChars[i] as int == CodeAt(i)
    {
      if i < 16 { CharsPart0(i); }
      else if i < 32 { CharsPart1(i); }
      else if i < 48 { CharsPart2(i); }
      else { CharsPart3(i); }
    }
  }

  lemma CharsPart0(i: int)
    requires 0 <= i < 16
    ensures ReplaceChars[i] as int == CodeAt(i)
  {
    if i == 0 {
      assert ReplaceChars[0] as int == CodeAt(0);
    } else if i == 1 {
      assert ReplaceChars[1] as int == CodeAt(1);
    } else if i == 2 {
      assert ReplaceChars[2] as int == CodeAt(2);
    } else if i == 3 {
      assert ReplaceChars[3] as int == CodeAt(3);
    } else if i == 4 {
      assert ReplaceChars[4] as int == CodeAt(4);
    } else if i == 5 {
      assert ReplaceChars[5] as int == CodeAt(5);
    } else if i == 6 {
      assert ReplaceChars[6] as int == CodeAt(6);
    } else if i == 7 {
      assert ReplaceChars[7] as int == CodeAt(7);
    } else if i == 8 {
      assert ReplaceChars[8] as int == CodeAt(8);
    } else if i == 9 {
      assert ReplaceChars[9] as int == CodeAt(9);
    } else if i == 10 {
      assert ReplaceChars[10] as int == CodeAt(10);
    } else if i == 11 {
      assert ReplaceChars[11] as int == CodeAt(11);
    } else if i == 12 {
      assert ReplaceChars[12] as int == CodeAt(12);
    } else if i == 13 {
      assert ReplaceChars[13] as int == CodeAt(13);
    } else if i == 14 {
      assert ReplaceChars[14] as int == CodeAt(14);
    } else {
      assert ReplaceChars[15] as int == CodeAt(15);
    }
  }

  lemma CharsPart1(i: int)
    requires 16 <= i < 32
    ensures ReplaceChars[i] as int == CodeAt(i)
  {
    if i == 16 {
      assert ReplaceChars[16] as int == CodeAt(16);
    } else if i == 17 {
      assert ReplaceChars[17] as int == CodeAt(17);
    } else if i == 18 {
      assert ReplaceChars[18] as int == CodeAt(18);
    } else if i == 19 {
      assert ReplaceChars[19] as int == CodeAt(19);
    } else if i == 20 {
      assert ReplaceChars[20] as int == CodeAt(20);
    } else if i == 21 {
      assert ReplaceChars[21] as int == CodeAt(21);
    } else if i == 22 {
      assert ReplaceChars[22] as int == CodeAt(22);
    } else if i == 23 {
      assert ReplaceChars[23] as int == CodeAt(23);
    } else if i == 24 {
      assert ReplaceChars[24] as int == CodeAt(24);
    } else if i == 25 {
      assert ReplaceChars[25] as int == CodeAt(25);
    } else if i == 26 {
      assert ReplaceChars[26] as int == CodeAt(26);
    } else if i == 27 {
      assert ReplaceChars[27] as int == CodeAt(27);
    } else if i == 28 {
      assert ReplaceChars[28] as int == CodeAt(28);
    } else if i == 29 {
      assert ReplaceChars[29] as int == CodeAt(29);
    } else if i == 30 {
      assert ReplaceChars[30] as int == CodeAt(30);
    } else {
      assert ReplaceChars[31] as int == CodeAt(31);
    }
  }

  lemma CharsPart2(i: int)
    requires 32 <= i < 48
    ensures ReplaceChars[i] as int == CodeAt(i)
  {
    if i == 32 {
      assert ReplaceChars[32] as int == CodeAt(32);
    } else if i == 33 {
      assert ReplaceChars[33] as int == CodeAt(33);
    } else if i == 34 {
      assert ReplaceChars[34] as int == CodeAt(34);
    } else if i == 35 {
      assert ReplaceChars[35] as int == CodeAt(35);
    } else if i == 36 {
      assert ReplaceChars[36] as int == CodeAt(36);
    } else if i == 37 {
      assert ReplaceChars[37] as int == CodeAt(37);
    } else if i == 38 {
      assert ReplaceChars[38] as int == CodeAt(38);
    } else if i == 39 {
      assert ReplaceChars[39] as int == CodeAt(39);
    } else if i == 40 {
      assert ReplaceChars[40] as int == CodeAt(40);
    } else if i == 41 {
      assert ReplaceChars[41] as int == CodeAt(41);
    } else if i == 42 {
      assert ReplaceChars[42] as int == CodeAt(42);
    } else if i == 43 {
      assert ReplaceChars[43] as int == CodeAt(43);
    } else if i == 44 {
      assert ReplaceChars[44] as int == CodeAt(44);
    } else if i == 45 {
      assert ReplaceChars[45] as int == CodeAt(45);
    } else if i == 46 {
      assert ReplaceChars[46] as int == CodeAt(46);
    } else {
      assert ReplaceChars[47] as int == CodeAt(47);
    }
  }

  lemma CharsPart3(i: int)
    requires 48 <= i < 63
    ensures ReplaceChars[i] as int == CodeAt(i)
  {
    if i == 48 {
      assert ReplaceChars[48] as int == CodeAt(48);
    } else if i == 49 {
      assert ReplaceChars[49] as int == CodeAt(49);
    } else if i == 50 {
      assert ReplaceChars[50] as int == CodeAt(50);
    } else if i == 51 {
      assert ReplaceChars[51] as int == CodeAt(51);
    } else if i == 52 {
      assert ReplaceChars[52] as int == CodeAt(52);
    } else if i == 53 {
      assert ReplaceChars[53] as int == CodeAt(53);
    } else if i == 54 {
      assert ReplaceChars[54] as int == CodeAt(54);
    } else if i == 55 {
      assert ReplaceChars[55] as int == CodeAt(55);
    } else if i == 56 {
      assert ReplaceChars[56] as int == CodeAt(56);
    } else if i == 57 {
      assert ReplaceChars[57] as int == CodeAt(57);
    } else if i == 58 {
      assert ReplaceChars[58] as int == CodeAt(58);
    } else if i == 59 {
      assert ReplaceChars[59] as int == CodeAt(59);
    } else if i == 60 {
      assert ReplaceChars[60] as int == CodeAt(60);
    } else if i == 61 {
      assert ReplaceChars[61] as int == CodeAt(61);
    } else {
      assert ReplaceChars[62] as int == CodeAt(62);
    }
  }


  /** An index is replaceable exactly when it is a printable ASCII code
      from space (0x20) to underscore (0x5F) other than '$' (0x24). */
  lemma ReplaceableIff(idx: int)
    ensures IsReplaceable(idx) <==> 0x20 <= idx <= 0x5F && idx != 0x24
  {
    ReplaceCharsLayout();
    if 0x20 <= idx <= 0x5F && idx != 0x24 {
      var i := if idx < 0x24 then idx - 0x20 else idx - 0x21;
      assert ReplaceChars[i] as int == CodeAt(i) == idx;
    }
  }

  // ---------------------------------------------------------------------
  // BF_GLYPH_LABELS

  /** An entry of the named-symbol table. */
  datatype Named = Named(names: seq<string>, note: string)

  /** What `labelFor` returns: `{kind, names, note}`. */
  datatype Label = Label(kind: string, names: seq<string>, note: string)

  /** The named symbols of the Betaflight OSD font (the table `m`). */
  function BfNamed(idx: int): Option<Named>
  {
    match idx
    case 0x01 => Some(Named(["SYM_RSSI"], "RSSI Icon"))
    case 0x02 => Some(Named(["SYM_AH_RIGHT"], ""))
    case 0x03 => Some(Named(["SYM_AH_LEFT", "SYM_CURSOR"], ""))
    case 0x04 => Some(Named(["SYM_THR"], "Throttle icon"))
    case 0x05 => Some(Named(["SYM_OVER_HOME"], ""))
    case 0x06 => Some(Named(["SYM_VOLT"], ""))
    case 0x07 => Some(Named(["SYM_MAH"], ""))
    case 0x08 => Some(Named(["SYM_STICK_OVERLAY_SPRITE_HIGH"], "Stick overlay"))
    case 0x09 => Some(Named(["SYM_STICK_OVERLAY_SPRITE_MID"], "Stick overlay"))
    case 0x0A => Some(Named(["SYM_STICK_OVERLAY_SPRITE_LOW"], "Stick overlay"))
    case 0x0B => Some(Named(["SYM_STICK_OVERLAY_CENTER"], "Stick overlay"))
    case 0x0C => Some(Named(["SYM_M"], ""))
    case 0x0D => Some(Named(["SYM_F"], "Fahrenheit"))
    case 0x0E => Some(Named(["SYM_C"], "Celsius"))
    case 0x0F => Some(Named(["SYM_FT"], ""))
    case 0x10 => Some(Named(["SYM_BBLOG"], "Black Box Log"))
    case 0x11 => Some(Named(["SYM_HOMEFLAG"], ""))
    case 0x12 => Some(Named(["SYM_RPM"], ""))
    case 0x13 => Some(Named(["SYM_AH_DECORATION"], "Horizon Sidebars"))
    case 0x14 => Some(Named(["SYM_ROLL"], ""))
    case 0x15 => Some(Named(["SYM_PITCH"], ""))
    case 0x16 => Some(Named(["SYM_STICK_OVERLAY_VERTICAL"], "Stick overlay"))
    case 0x17 => Some(Named(["SYM_STICK_OVERLAY_HORIZONTAL"], "Stick overlay"))
    case 0x18 => Some(Named(["SYM_HEADING_N"], "Compass bar"))
    case 0x19 => Some(Named(["SYM_HEADING_S"], "Compass bar"))
    case 0x1A => Some(Named(["SYM_HEADING_E"], "Compass bar"))
    case 0x1B => Some(Named(["SYM_HEADING_W"], "Compass bar"))
    case 0x1C => Some(Named(["SYM_HEADING_DIVIDED_LINE"], "Compass bar"))
    case 0x1D => Some(Named(["SYM_HEADING_LINE"], "Compass bar"))
    case 0x1E => Some(Named(["SYM_SAT_L"], "GPS icon left"))
    case 0x1F => Some(Named(["SYM_SAT_R"], "GPS icon right"))
    case 0x2D => Some(Named(["SYM_HYPHEN"], ""))
    case 0x57 => Some(Named(["SYM_WATT"], "Also ASCII 'W'"))
    case 0x60 => Some(Named(["SYM_ARROW_SOUTH"], "Direction to home, crash flip, etc"))
    case 0x61 => Some(Named(["SYM_ARROW_2"], "Calculated from SYM_ARROW_SOUTH + heading"))
    case 0x62 => Some(Named(["SYM_ARROW_3"], "Calculated from SYM_ARROW_SOUTH + heading"))
    case 0x63 => Some(Named(["SYM_ARROW_4"], "Calculated from SYM_ARROW_SOUTH + heading"))
    case 0x64 => Some(Named(["SYM_ARROW_EAST"], "Calculated from SYM_ARROW_SOUTH + heading"))
    case 0x65 => Some(Named(["SYM_ARROW_6"], "Calculated from SYM_ARROW_SOUTH + heading"))
    case 0x66 => Some(Named(["SYM_ARROW_7"], "Calculated from SYM_ARROW_SOUTH + heading"))
    case 0x67 => Some(Named(["SYM_ARROW_8"], "Calculated from SYM_ARROW_SOUTH + heading"))
    case 0x68 => Some(Named(["SYM_ARROW_NORTH"], "Calculated from SYM_ARROW_SOUTH + heading"))
    case 0x69 => Some(Named(["SYM_ARROW_10"], "Calculated from SYM_ARROW_SOUTH + heading"))
    case 0x6A => Some(Named(["SYM_ARROW_11"], "Calculated from SYM_ARROW_SOUTH + heading"))
    case 0x6B => Some(Named(["SYM_ARROW_12"], "Calculated from SYM_ARROW_SOUTH + heading"))
    case 0x6C => Some(Named(["SYM_ARROW_WEST"], "Calculated from SYM_ARROW_SOUTH + heading"))
    case 0x6D => Some(Named(["SYM_ARROW_14"], "Calculated from SYM_ARROW_SOUTH + heading"))
    case 0x6E => Some(Named(["SYM_ARROW_15"], "Calculated from SYM_ARROW_SOUTH + heading"))
    case 0x6F => Some(Named(["SYM_ARROW_16"], "Calculated from SYM_ARROW_SOUTH + heading"))
    case 0x70 => Some(Named(["SYM_SPEED"], ""))
    case 0x71 => Some(Named(["SYM_TOTAL_DISTANCE"], ""))
    case 0x72 => Some(Named(["SYM_AH_CENTER_LINE"], "Crosshairs"))
    case 0x73 => Some(Named(["SYM_AH_CENTER"], "Crosshairs"))
    case 0x74 => Some(Named(["SYM_AH_CENTER_LINE_RIGHT"], "Crosshairs"))
    case 0x7A => Some(Named(["SYM_TEMPERATURE"], ""))
    case 0x7F => Some(Named(["SYM_ALTITUDE"], ""))
    case 0x80 => Some(Named(["SYM_AH_BAR9_0"], ""))
    case 0x81 => Some(Named(["SYM_AH_BAR9_1"], "Calculated in AH using SYM_AH_BAR9_0 as base"))
    case 0x82 => Some(Named(["SYM_AH_BAR9_2"], "Calculated in AH using SYM_AH_BAR9_0 as base"))
    case 0x83 => Some(Named(["SYM_AH_BAR9_3"], "Calculated in AH using SYM_AH_BAR9_0 as base"))
    case 0x84 => Some(Named(["SYM_AH_BAR9_4"], "Calculated in AH using SYM_AH_BAR9_0 as base"))
    case 0x85 => Some(Named(["SYM_AH_BAR9_5"], "Calculated in AH using SYM_AH_BAR9_0 as base"))
    case 0x86 => Some(Named(["SYM_AH_BAR9_6"], "Calculated in AH using SYM_AH_BAR9_0 as base"))
    case 0x87 => Some(Named(["SYM_AH_BAR9_7"], "Calculated in AH using SYM_AH_BAR9_0 as base"))
    case 0x88 => Some(Named(["SYM_AH_BAR9_8"], "Calculated in AH using SYM_AH_BAR9_0 as base"))
    case 0x89 => Some(Named(["SYM_LAT"], ""))
    case 0x8A => Some(Named(["SYM_PB_START"], ""))
    case 0x8B => Some(Named(["SYM_PB_FULL"], ""))
    case 0x8C => Some(Named(["SYM_PB_HALF"], ""))
    case 0x8D => Some(Named(["SYM_PB_EMPTY"], ""))
    case 0x8E => Some(Named(["SYM_PB_END"], ""))
    case 0x8F => Some(Named(["SYM_PB_CLOSE"], ""))
    case 0x90 => Some(Named(["SYM_BATT_FULL"], "Calculated from SYM_BATT_EMPTY"))
    case 0x91 => Some(Named(["SYM_BATT_5"], "Calculated from SYM_BATT_EMPTY"))
    case 0x92 => Some(Named(["SYM_BATT_4"], "Calculated from SYM_BATT_EMPTY"))
    case 0x93 => Some(Named(["SYM_BATT_3"], "Calculated from SYM_BATT_EMPTY"))
    case 0x94 => Some(Named(["SYM_BATT_2"], "Calculated from SYM_BATT_EMPTY"))
    case 0x95 => Some(Named(["SYM_BATT_1"], "Calculated from SYM_BATT_EMPTY"))
    case 0x96 => Some(Named(["SYM_BATT_EMPTY"], ""))
    case 0x97 => Some(Named(["SYM_MAIN_BATT"], ""))
    case 0x98 => Some(Named(["SYM_LON"], ""))
    case 0x99 => Some(Named(["SYM_FTPS"], "ft per second (vario)"))
    case 0x9A => Some(Named(["SYM_AMP"], ""))
    case 0x9B => Some(Named(["SYM_ON_M"], ""))
    case 0x9C => Some(Named(["SYM_FLY_M"], ""))
    case 0x9D => Some(Named(["SYM_MPH"], ""))
    case 0x9E => Some(Named(["SYM_KPH"], ""))
    case 0x9F => Some(Named(["SYM_MPS"], "meters per second (vario)"))
    case 0xA0 => Some(Named(["LOGO_START"], "Logo starts here"))
    case 0xFF => Some(Named(["SYM_END_OF_FONT"], ""))
    case _ => None
  }

  /** `asciiLabel`: the characters 0x20..0x5F as "SPACE" or the quoted
      character. */
  function AsciiLabel(idx: int): Option<string>
  {
    if idx < 0x20 || idx > 0x5F then None
    else if idx == 0x20 then Some("SPACE")
    else Some("\"" + [idx as char] + "\"")
  }

  /** `logoLabel`: the logo tiles 0xA0..0xFE, numbered from 0 and shown
      with their two-digit hexadecimal code. */
  function LogoLabel(idx: int): Option<string>
  {
    if idx < 0xA0 || idx > 0xFE then None
    else Some("Logo tile " + NatToDec(idx - 0xA0) + " (0x" + PadZeros(Hex(idx), 2) + ")")
  }

  /** `labelFor`: the named symbol if there is one, else the ASCII label,
      else the logo label, else "(unmapped)". */
  function LabelFor(idx: int): (l: Label)
    ensures l.kind in {"bf", "ascii", "logo", "unknown"}
    ensures l.kind == "bf" <==> BfNamed(idx).Some?
    ensures l.kind == "ascii" <==> BfNamed(idx).None? && 0x20 <= idx <= 0x5F
    ensures l.kind == "logo" <==> BfNamed(idx).None? && 0xA0 <= idx <= 0xFE
  {
    if BfNamed(idx).Some? then Label("bf", BfNamed(idx).value.names, BfNamed(idx).value.note)
    else if AsciiLabel(idx).Some? then Label("ascii", ["ASCII"], AsciiLabel(idx).value)
    else if LogoLabel(idx).Some? then Label("logo", ["LOGO_TILE"], LogoLabel(idx).value)
    else Label("unknown", ["(unmapped)"], "")
  }

  /** Named symbols take precedence inside the ASCII section: 0x2D is the
      hyphen symbol and 0x57 the watt symbol, while 'A' is plain ASCII. */
  lemma LabelPrecedence()
    ensures LabelFor(0x2D) == Label("bf", ["SYM_HYPHEN"], "")
    ensures LabelFor(0x41) == Label("ascii", ["ASCII"], "\"A\"")
    ensures LabelFor(0x20) == Label("ascii", ["ASCII"], "SPACE")
  {
  }

  /** The first logo tile after LOGO_START is tile 1. */
  lemma LogoTileLabel()
    ensures LabelFor(0xA1).kind == "logo"
    ensures LabelFor(0xA1).note == "Logo tile 1 (0xA1)"
  {
    assert Hex(0xA1) == "A1" by {
      assert UpperHexDigit(10) == 'A' && UpperHexDigit(1) == '1';
    }
    assert NatToDec(1) == "1" by {
      assert DigitChar(1) == '1';
    }
    assert "Logo tile " + "1" + " (0x" + "A1" + ")" == "Logo tile 1 (0xA1)";
  }

  // ---------------------------------------------------------------------
  // SWAP_TARGETS

  datatype SwapTarget = SwapTarget(id: string, name: string, indices: seq<int>)

  const SwapTargets: seq<SwapTarget> := [
    SwapTarget("rssi", "RSSI", [1]),
    SwapTarget("throttle", "Throttle", [4]),
    SwapTarget("volts", "Volts", [6]),
    SwapTarget("mah", "mAh", [7]),
    SwapTarget("amp", "A / Amp", [154]),
    SwapTarget("thermometer", "Thermometer", [122]),
    SwapTarget("lq", "LQ", [123]),
    SwapTarget("on_m", "ON m", [155]),
    SwapTarget("fly_m", "FLY m", [156]),
    SwapTarget("battery_set", "Batteries", [144, 145, 146, 147, 148, 149, 150, 151]),
    SwapTarget("crosshair_set", "Crosshairs", [114, 115, 116])
  ]

  /** `swapTargetsById.get(id)`: the Map built from the list keeps the
      last target with a given id. */
  function TargetById(id: string): Option<SwapTarget>
  {
    FindLast(SwapTargets, id)
  }

  /** The target a Map built from `ts` holds under id: the last one with
      that id, as later `set`s overwrite earlier ones. */
  function FindLast(ts: seq<SwapTarget>, id: string): (r: Option<SwapTarget>)
    ensures r.Some? ==> r.value.id == id
    ensures r.Some? ==>
      exists j :: 0 <= j < |ts| && ts[j] == r.value && forall k :: j < k < |ts| ==> ts[k].id != id
    ensures r.None? ==> forall j :: 0 <= j < |ts| ==> ts[j].id != id
  {
    if ts == [] then None
    else if ts[|ts| - 1].id == id then Some(ts[|ts| - 1])
    else
      var r := FindLast(ts[..|ts| - 1], id);
      assert forall j :: 0 <= j < |ts| - 1 ==> ts[..|ts| - 1][j] == ts[j];
      r
  }

  /** No two swap targets share an id, so the lookup never hides one. */
  lemma SwapTargetIdsDistinct()
    ensures forall i, j :: 0 <= i < j < |SwapTargets| ==> SwapTargets[i].id != SwapTargets[j].id
  {
  }

  /** Every swap target names at least one glyph slot, all inside the
      256-glyph font, with no slot repeated. */
  lemma SwapTargetsWellFormed(id: string)
    ensures TargetById(id).Some? ==>
      var t := TargetById(id).value;
      |t.indices| > 0 &&
      (forall i :: 0 <= i < |t.indices| ==> 0 <= t.indices[i] < 256) &&
      (forall i, j :: 0 <= i < j < |t.indices| ==> t.indices[i] != t.indices[j])
  {
  }
}
