/**
 * `fix_individual_rows`: a fixed table of corrections for eight ingredient
 * lines, plus one rule for any row, applied in order to the row's cells in
 * place. Two corrections concatenate cells and raise a TypeError when one of
 * them is NaN; the assignments made before the failing one stay.
 */
module Patches {
  import opened Wrappers
  import opened Record

  const CrushedPeppers: string := "3 crushed red peppers"
  const Daikon: string := "1 small-to-medium daikon radish (cut into 1-inch cubes)"
  const Peppercorns: string := "1 heaping teaspoon black peppercorns"
  const PorkBelly: string := "a 10-pound piece of pork belly with the skin"
  const Baguette: string := "1 long soft baguette or loaf Cuban bread"
  const Chilies: string := "2 long red chilies, seeded and finely sliced"
  const Flour: string := "2 scant cups all-purpose flour"
  const Butter: string := "4 ounces (1 stick) unsalted butter"

  /** The eight input lines the table names. */
  const PatchedInputs: set<string> := {CrushedPeppers, Daikon, Peppercorns, PorkBelly, Baguette, Chilies, Flour, Butter}

  /** The cells when the function returns or raises, and the exception it raises. */
  datatype Outcome = Outcome(cells: Cells, error: Option<PyError>)

  /** The corrections in source order. */
  function Patched(c: Cells): (r: Outcome) {
    var c1 := if c.input == Text(CrushedPeppers) then c.(unit := Missing, comment := Text("crushed")) else c;
    if c1.input == Text(Daikon) && (c1.unit.Missing? || c1.comment.Missing?) then Outcome(c1, Some(TypeError))
    else
      var c2 := if c1.input == Text(Daikon) then c1.(comment := Text(c1.unit.s + " " + c1.comment.s), unit := Missing) else c1;
      var c3 := if c2.unit == Text("chopped") then c2.(comment := Text("chopped"), unit := Missing) else c2;
      var c4 := if c3.input == Text(Peppercorns) then c3.(comment := Text("heaping"), unit := Text("teaspoon")) else c3;
      var c5 := if c4.input == Text(PorkBelly) then c4.(qty := Qty(10.0), unit := Text("pound")) else c4;
      var c6 := if c5.input == Text(Baguette) then c5.(unit := Missing, comment := Text("long")) else c5;
      if c6.input == Text(Chilies) && c6.comment.Missing? then Outcome(c6.(unit := Missing), Some(TypeError))
      else
        var c7 := if c6.input == Text(Chilies) then c6.(unit := Missing, comment := Text("long " + c6.comment.s)) else c6;
        var c8 := if c7.input == Text(Flour) then c7.(unit := Text("cups"), comment := Text("scant")) else c7;
        var c9 := if c8.input == Text(Butter) then c8.(unit := Text("ounces"), comment := Text("(1 stick)")) else c8;
        Outcome(c9, None)
  }

  /** Returns the exception raised, if any; the row holds the cells as they were at that point. */
  method FixIndividualRows(row: Row) returns (error: Option<PyError>)
    modifies row
    ensures Patched(old(row.Snapshot())) == Outcome(row.Snapshot(), error)
  {
    if row.input == Text(CrushedPeppers) {
      row.unit := Missing;
      row.comment := Text("crushed");
    }
    if row.input == Text(Daikon) {
      if row.unit.Missing? || row.comment.Missing? {
        return Some(TypeError);
      }
      row.comment := Text(row.unit.s + " " + row.comment.s);
      row.unit := Missing;
    }
    if row.unit == Text("chopped") {
      row.comment := Text("chopped");
      row.unit := Missing;
    }
    if row.input == Text(Peppercorns) {
      row.comment := Text("heaping");
      row.unit := Text("teaspoon");
    }
    if row.input == Text(PorkBelly) {
      row.qty := Qty(10.0);
      row.unit := Text("pound");
    }
    if row.input == Text(Baguette) {
      row.unit := Missing;
      row.comment := Text("long");
    }
    if row.input == Text(Chilies) {
      row.unit := Missing;
      if row.comment.Missing? {
        return Some(TypeError);
      }
      row.comment := Text("long " + row.comment.s);
    }
    if row.input == Text(Flour) {
      row.unit := Text("cups");
      row.comment := Text("scant");
    }
    if row.input == Text(Butter) {
      row.unit := Text("ounces");
      row.comment := Text("(1 stick)");
    }
    return None;
  }

  // ---------------------------------------------------------------------
  // Properties
  // ---------------------------------------------------------------------

  /** Input and name are never written. */
  lemma PatchesKeepText(c: Cells)
    ensures Patched(c).cells.input == c.input && Patched(c).cells.name == c.name
  {
  }

  /** A row whose input is not in the table and whose unit is not "chopped" comes back as it was. */
  lemma PatchesUntouched(c: Cells)
    requires c.input.Missing? || c.input.s !in PatchedInputs
    requires c.unit != Text("chopped")
    ensures Patched(c) == Outcome(c, None)
  {
  }

  /** Outside the table, a unit "chopped" moves to the comment and the unit becomes NaN. */
  lemma ChoppedMoves(c: Cells)
    requires c.input.Missing? || c.input.s !in PatchedInputs
    requires c.unit == Text("chopped")
    ensures Patched(c) == Outcome(c.(unit := Missing, comment := Text("chopped")), None)
  {
  }

  /** The butter line ends with unit "ounces" and comment "(1 stick)", whatever it held. */
  lemma ButterPatched(c: Cells)
    requires c.input == Text(Butter)
    ensures Patched(c) == Outcome(c.(unit := Text("ounces"), comment := Text("(1 stick)")), None)
  {
  }

  /**
   * The function raises exactly when the daikon line lacks a unit or a
   * comment, or when the chilies line lacks a comment and its unit is not
   * "chopped" (the chopped rule would have filled the comment); in the
   * second case the unit has already been set to NaN.
   */
  lemma PatchesRaise(c: Cells)
    ensures Patched(c).error.Some? <==>
              || (c.input == Text(Daikon) && (c.unit.Missing? || c.comment.Missing?))
              || (c.input == Text(Chilies) && c.comment.Missing? && c.unit != Text("chopped"))
    ensures Patched(c).error.Some? ==> Patched(c).error == Some(TypeError)
    ensures c.input == Text(Chilies) ==> Patched(c).cells.unit == Missing
  {
  }

  /** A second application prefixes the chilies comment with "long " again: the pass is not idempotent. */
  lemma ChiliesGrow(c: Cells)
    requires c.input == Text(Chilies) && c.comment.Text? && c.unit != Text("chopped")
    ensures Patched(c).cells.comment == Text("long " + c.comment.s)
    ensures Patched(Patched(c).cells).cells.comment == Text("long long " + c.comment.s)
  {
  }
}
