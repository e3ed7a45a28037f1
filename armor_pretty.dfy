/** The printed card of an armor or shield: the Defense and M. Defense cells, the
    quality line and the name of the exported JSON file. Numbers print as String(n)
    prints integers. */
module ArmorPretty {
  import opened Text

  /** The fields of an equipment record the card reads. `quality` is None when the
      record has none. */
  datatype Armor = Armor(
    category: string,
    name: string,
    def: int,
    mdef: int,
    martial: bool,
    quality: Option<string>)

  /** The Defense cell: three conditional pieces printed side by side. */
  function DefenseCell(a: Armor): (cell: string)
    ensures a.category == "Shield" ==> cell == "+" + IntToString(a.def)
    ensures a.category == "Armor" && a.martial ==> cell == IntToString(a.def)
    ensures a.category == "Armor" && !a.martial ==>
      cell == (if a.def == 0 then "DEX die" else "DEX die +" + IntToString(a.def))
    ensures a.category != "Shield" && a.category != "Armor" ==> cell == ""
  {
    assert "Shield"[0] != "Armor"[0];
    var shieldPiece := if a.category == "Shield" then "+" + IntToString(a.def) else "";
    var martialPiece := if a.category == "Armor" && a.martial then IntToString(a.def) else "";
    var armorPiece :=
      if a.category == "Armor" && !a.martial then
        (if a.def == 0 then "DEX die" else "DEX die +" + IntToString(a.def))
      else "";
    assert a.category != "Shield" ==> shieldPiece == [];
    assert a.category == "Shield" ==> martialPiece == [] && armorPiece == [];
    shieldPiece + martialPiece + armorPiece
  }

  /** The text a card prints for a magic defense bonus on armor. */
  function InsDie(mdef: int): string {
    if mdef == 0 then "INS die" else "INS die +" + IntToString(mdef)
  }

  /** The M. Defense cell as written: for martial armor the piece that prints `def`
      in the Defense cell is repeated here, in front of the INS die text. */
  function MDefenseCell(a: Armor): (cell: string)
    ensures a.category == "Shield" ==> cell == "+" + IntToString(a.mdef)
    ensures a.category == "Armor" && a.martial ==> cell == IntToString(a.def) + InsDie(a.mdef)
    ensures a.category == "Armor" && !a.martial ==> cell == InsDie(a.mdef)
    ensures a.category != "Shield" && a.category != "Armor" ==> cell == ""
  {
    assert "Shield"[0] != "Armor"[0];
    var shieldPiece := if a.category == "Shield" then "+" + IntToString(a.mdef) else "";
    var martialPiece := if a.category == "Armor" && a.martial then IntToString(a.def) else "";
    var armorPiece := if a.category == "Armor" then InsDie(a.mdef) else "";
    assert a.category != "Shield" ==> shieldPiece == [];
    assert a.category == "Shield" ==> martialPiece == [] && armorPiece == [];
    shieldPiece + martialPiece + armorPiece
  }

  /** The M. Defense cell as evidently intended: it depends on mdef alone. */
  function MDefenseCellIntended(a: Armor): (cell: string)
    ensures a.category == "Armor" ==> cell == InsDie(a.mdef)
    ensures a.category != "Armor" ==> cell == MDefenseCell(a)
  {
    if a.category == "Armor" then InsDie(a.mdef) else MDefenseCell(a)
  }

  // ---------------------------------------------------------------------------
  // Reading the cells back

  function StartsWith(s: string, prefix: string): bool {
    |prefix| <= |s| && s[..|prefix|] == prefix
  }

  /** The bonus a Defense cell shows, given the category and the martial flag. */
  function ReadDefense(category: string, martial: bool, cell: string): Option<int> {
    if category == "Shield" then
      if StartsWith(cell, "+") then ParseInt(cell[1..]) else None
    else if category == "Armor" && martial then ParseInt(cell)
    else if category == "Armor" then
      if cell == "DEX die" then Some(0)
      else if StartsWith(cell, "DEX die +") then ParseInt(cell[9..])
      else None
    else None
  }

  /** The bonus an M. Defense cell shows, for a Shield or an Armor. */
  function ReadMDefense(category: string, cell: string): Option<int> {
    if category == "Shield" then
      if StartsWith(cell, "+") then ParseInt(cell[1..]) else None
    else if category == "Armor" then
      if cell == "INS die" then Some(0)
      else if StartsWith(cell, "INS die +") then ParseInt(cell[9..])
      else None
    else None
  }

  /** The Defense cell of a Shield or an Armor shows its def: reading it back gives def. */
  lemma DefenseCellRoundTrip(a: Armor)
    requires a.category == "Shield" || a.category == "Armor"
    ensures ReadDefense(a.category, a.martial, DefenseCell(a)) == Some(a.def)
  {
    var cell := DefenseCell(a);
    ParseIntToString(a.def);
    if a.category == "Shield" {
      assert cell[1..] == IntToString(a.def);
    } else if !a.martial && a.def != 0 {
      assert cell != "DEX die" by { assert |cell| > 9; }
      assert cell[..9] == "DEX die +";
      assert cell[9..] == IntToString(a.def);
    }
  }

  /** The intended M. Defense cell shows mdef: reading it back gives mdef. */
  lemma MDefenseCellIntendedRoundTrip(a: Armor)
    requires a.category == "Shield" || a.category == "Armor"
    ensures ReadMDefense(a.category, MDefenseCellIntended(a)) == Some(a.mdef)
  {
    var cell := MDefenseCellIntended(a);
    ParseIntToString(a.mdef);
    if a.category == "Shield" {
      assert cell[1..] == IntToString(a.mdef);
    } else if a.mdef != 0 {
      assert cell != "INS die" by { assert |cell| > 9; }
      assert cell[..9] == "INS die +";
      assert cell[9..] == IntToString(a.mdef);
    }
  }

  /** As written, the M. Defense cell of martial armor is the intended one with def
      printed in front, so it no longer reads as an INS die bonus. */
  lemma MartialMDefensePrefixed(a: Armor)
    requires a.category == "Armor" && a.martial
    ensures MDefenseCell(a) == IntToString(a.def) + MDefenseCellIntended(a)
    ensures ReadMDefense(a.category, MDefenseCell(a)) == None
  {
    var cell := MDefenseCell(a);
    var d := IntToString(a.def);
    assert cell[0] == d[0];
    assert d[0] == '-' || IsDigit(d[0]) by {
      if a.def >= 0 {
        assert AllDigits(NatToString(a.def));
      }
    }
    assert cell != "INS die" by { assert cell[0] != 'I'; }
    assert !StartsWith(cell, "INS die +") by {
      if |cell| >= 9 {
        assert cell[..9][0] == cell[0];
      }
    }
  }

  /** A martial armor with def 10 and no magic bonus prints "10INS die". */
  lemma MartialMDefenseExample()
    ensures MDefenseCell(Armor("Armor", "Bronze Plate", 10, 0, true, None)) == "10INS die"
    ensures MDefenseCellIntended(Armor("Armor", "Bronze Plate", 10, 0, true, None)) == "INS die"
  {
  }

  // ---------------------------------------------------------------------------
  // Quality line

  predicate HasNoQuality(a: Armor) {
    a.quality.None? || a.quality.value == ""
  }

  /** {!armor.quality && "No Qualities"} {armor.quality}: a falsy quality prints as
      nothing, and the space between the two pieces is always printed. */
  function QualityLine(a: Armor): (line: string)
    ensures StartsWith(line, "No Qualities") <==> HasNoQuality(a)
    ensures HasNoQuality(a) ==> line == "No Qualities "
    ensures !HasNoQuality(a) ==> line == " " + a.quality.value
  {
    var text := if a.quality.Some? then a.quality.value else "";
    var line := (if HasNoQuality(a) then "No Qualities" else "") + " " + text;
    assert !HasNoQuality(a) ==> line == " " + text && line[0] != "No Qualities"[0];
    line
  }

  // ---------------------------------------------------------------------------
  // Export file name

  /** The characters JavaScript's \s matches: the ASCII white space characters,
      U+00A0, U+1680, U+2000 to U+200A, U+2028, U+2029, U+202F, U+205F, U+3000 and
      U+FEFF. */
  predicate IsJsWhitespace(c: char) {
    var n := c as int;
    n == 0x20 || (0x09 <= n <= 0x0D) || n == 0xA0 || n == 0x1680
    || (0x2000 <= n <= 0x200A) || n == 0x2028 || n == 0x2029 || n == 0x202F
    || n == 0x205F || n == 0x3000 || n == 0xFEFF
  }

  /** name.replace(/\s/g, "_").toLowerCase() */
  function FileStem(name: string): (stem: string)
    ensures |stem| == |name|
    ensures forall i :: 0 <= i < |name| ==>
      stem[i] == (if IsJsWhitespace(name[i]) then '_' else LowerChar(name[i]))
  {
    Lower(seq(|name|, i requires 0 <= i < |name| => if IsJsWhitespace(name[i]) then '_' else name[i]))
  }

  /** The name getJSON gives the exported file. */
  function ExportFileName(name: string): (fileName: string)
    ensures |fileName| == |name| + 5
    ensures fileName[..|name|] == FileStem(name) && fileName[|name|..] == ".json"
  {
    FileStem(name) + ".json"
  }

  /** The stem holds no white space and no upper-case ASCII letter; it keeps every
      other character of the name in place, and making it again changes nothing. */
  lemma FileStemShape(name: string)
    ensures forall i :: 0 <= i < |name| ==> !IsJsWhitespace(FileStem(name)[i]) && !IsAsciiUpper(FileStem(name)[i])
    ensures forall i :: 0 <= i < |name| && !IsJsWhitespace(name[i]) && !IsAsciiUpper(name[i]) ==>
      FileStem(name)[i] == name[i]
    ensures FileStem(FileStem(name)) == FileStem(name)
  {
  }
}
