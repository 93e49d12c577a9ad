/** The check `main` makes on each spreadsheet row before copying from it. */
module Rows {
  import opened Text

  /** A row is skipped when its `drive_path`, as a string, is empty or is
      `nan` in any case (how a missing cell reads once stringified): the
      empty string and the eight spellings of `nan` with any mix of upper-
      and lower-case letters. */
  function SkipRow(drivePath: string): (b: bool)
    ensures b <==>
      drivePath == [] ||
      (|drivePath| == 3
       && (drivePath[0] == 'n' || drivePath[0] == 'N')
       && (drivePath[1] == 'a' || drivePath[1] == 'A')
       && (drivePath[2] == 'n' || drivePath[2] == 'N'))
  {
    var l := Lower(drivePath);
    assert |drivePath| == 3 ==> l == [l[0], l[1], l[2]];
    drivePath == [] || l == "nan"
  }

  /** Only the empty path and `nan` are skipped: a real drive path such as
      a UNC share or a drive letter is kept. */
  lemma {:induction false} SkipRowKeepsPaths(drivePath: string)
    requires drivePath != []
    requires |drivePath| != 3 || drivePath[0] == '\\' || drivePath[1] == ':'
    ensures !SkipRow(drivePath)
  {
  }
}
