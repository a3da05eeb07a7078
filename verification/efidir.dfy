/**
 * Finding the EFI system partition from the text `df` prints: the mount
 * points under `/boot` are collected from the sixth column of every row
 * after the header, and `/boot/efi` is preferred to `/boot`. Running `df`
 * is an input: its output, or `None` when it exited with an error.
 */
module EfiDir {
  import opened Wrappers
  import opened Text

  /** The mount point a `df` row names, when the row has at least six columns and the sixth starts with `/boot`. */
  function RowMount(row: string): (m: Option<string>)
    ensures m.Some? ==> StartsWith(m.value, "/boot")
  {
    var parts := SplitWs(row);
    if |parts| < 6 then None
    else if StartsWith(parts[5], "/boot") then Some(parts[5])
    else None
  }

  /** `boot_mounts` after the rows, each row giving its mount point through `mount`. */
  function MountSet(mount: string -> Option<string>, rows: seq<string>): set<string>
    decreases |rows|
  {
    if rows == [] then {}
    else
      var m := mount(rows[|rows| - 1]);
      MountSet(mount, rows[..|rows| - 1]) + (if m.Some? then {m.value} else {})
  }

  /** Some row names the mount point `m`. */
  ghost predicate Mounted(mount: string -> Option<string>, rows: seq<string>, m: string)
  {
    exists i :: 0 <= i < |rows| && mount(rows[i]) == Some(m)
  }

  /** The collected set holds exactly the mount points some row names. */
  lemma {:induction false} MountsExactly(mount: string -> Option<string>, rows: seq<string>)
    ensures forall m :: m in MountSet(mount, rows) <==> Mounted(mount, rows, m)
    decreases |rows|
  {
    if rows != [] {
      var n := |rows| - 1;
      MountsExactly(mount, rows[..n]);
      forall m ensures m in MountSet(mount, rows) <==> Mounted(mount, rows, m) {
        MountedSnoc(mount, rows, m);
      }
    }
  }

  /** A mount point is named by some row exactly when it is named before the last row or by the last row. */
  lemma MountedSnoc(mount: string -> Option<string>, rows: seq<string>, m: string)
    requires rows != []
    ensures Mounted(mount, rows, m) <==> Mounted(mount, rows[..|rows| - 1], m) || mount(rows[|rows| - 1]) == Some(m)
  {
    var n := |rows| - 1;
    var ini := rows[..n];
    if Mounted(mount, ini, m) {
      var i :| 0 <= i < n && mount(ini[i]) == Some(m);
      assert rows[i] == ini[i];
    }
    if Mounted(mount, rows, m) {
      var i :| 0 <= i < |rows| && mount(rows[i]) == Some(m);
      if i < n {
        assert ini[i] == rows[i];
      }
    }
  }

  /** Every collected mount point is under `/boot`. */
  lemma MountsUnderBoot(rows: seq<string>)
    ensures forall m :: m in MountSet(RowMount, rows) ==> StartsWith(m, "/boot")
  {
    MountsExactly(RowMount, rows);
    forall m | m in MountSet(RowMount, rows) ensures StartsWith(m, "/boot") {
      var i :| 0 <= i < |rows| && RowMount(rows[i]) == Some(m);
    }
  }

  /** The rows after the header line. */
  function Rows(df: string): (rows: seq<string>)
    ensures SplitLines(df) != [] ==> rows == SplitLines(df)[1..]
    ensures SplitLines(df) == [] ==> rows == []
  {
    var ls := SplitLines(df);
    if ls == [] then [] else ls[1..]
  }

  /** `detect_efidir` with the output of `df` as input. */
  function EfiDirOf(df: Option<string>): Option<string>
  {
    match df
    case None => None
    case Some(text) =>
      var mounts := MountSet(RowMount, Rows(text));
      if "/boot/efi" in mounts then Some("/boot/efi")
      else if "/boot" in mounts then Some("/boot")
      else None
  }

  /** One more row adds its mount point, if it names one. */
  lemma MountSetSnoc(rows: seq<string>, i: nat)
    requires i < |rows|
    ensures MountSet(RowMount, rows[..i + 1]) ==
      MountSet(RowMount, rows[..i]) + (if RowMount(rows[i]).Some? then {RowMount(rows[i]).value} else {})
  {
    assert rows[..i + 1][..i] == rows[..i];
  }

  /** `detect_efidir`, with its loop over the rows. */
  method DetectEfiDir(df: Option<string>) returns (r: Option<string>)
    ensures r == EfiDirOf(df)
  {
    if df.None? {
      return None;
    }
    var rows := Rows(df.value);
    var bootMounts: set<string> := {};
    for i := 0 to |rows|
      invariant bootMounts == MountSet(RowMount, rows[..i])
    {
      MountSetSnoc(rows, i);
      var parts := SplitWs(rows[i]);
      if |parts| < 6 {
        continue;
      }
      var mountPoint := parts[5];
      if StartsWith(mountPoint, "/boot") {
        bootMounts := bootMounts + {mountPoint};
      }
    }
    assert rows[..|rows|] == rows;
    if "/boot/efi" in bootMounts {
      r := Some("/boot/efi");
    } else if "/boot" in bootMounts {
      r := Some("/boot");
    } else {
      r := None;
    }
  }

  /**
   * `/boot/efi` is answered exactly when some row after the header mounts
   * it; `/boot` exactly when none does and some row mounts `/boot`; and
   * nothing otherwise, or when `df` failed.
   */
  lemma EfiDirChoice(df: Option<string>)
    ensures EfiDirOf(df) == Some("/boot/efi") <==> df.Some? && Mounted(RowMount, Rows(df.value), "/boot/efi")
    ensures EfiDirOf(df) == Some("/boot") <==>
      df.Some? && !Mounted(RowMount, Rows(df.value), "/boot/efi") && Mounted(RowMount, Rows(df.value), "/boot")
    ensures EfiDirOf(df) == None <==>
      df.None? || (!Mounted(RowMount, Rows(df.value), "/boot/efi") && !Mounted(RowMount, Rows(df.value), "/boot"))
  {
    if df.Some? {
      MountsExactly(RowMount, Rows(df.value));
    }
  }

  /** The header line is never read as a mount: output with only a header gives nothing. */
  lemma HeaderOnly(df: string)
    requires |SplitLines(df)| <= 1
    ensures EfiDirOf(Some(df)) == None
  {
    assert Rows(df) == [];
  }
}
