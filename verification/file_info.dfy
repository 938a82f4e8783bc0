/** The file-information manager (`FileInfoMgr`): a table of the source
    files read so far, each with its name and, for an included file, the
    location of the include that opened it; and the text forms of file
    infos, file locations and file regions used in messages. */
module FileInfo {
  import opened Base

  /** A position in a file (`FileLoc`).  The file is the id of a file info;
      `None` is the invalid file info, which makes the location invalid. */
  datatype FileLoc = FileLoc(info: Option<nat>, line: nat, column: nat)

  predicate IsValid(loc: FileLoc) {
    loc.info.Some?
  }

  const InvalidLoc := FileLoc(None, 0, 0)

  /** One entry of the table: the file name and the include location. */
  datatype Entry = Entry(name: string, parent: FileLoc)

  /** The manager: entry `id` describes the file info with that id. */
  datatype Mgr = Mgr(files: seq<Entry>)

  /** Every include location names an earlier file, so that following
      parents always ends at a top-level file. */
  predicate WellFormed(m: Mgr) {
    forall id :: 0 <= id < |m.files| && IsValid(m.files[id].parent) ==> m.files[id].parent.info.value < id
  }

  /** A location is usable in `m` when it is invalid or names a file of
      `m`. */
  predicate Known(m: Mgr, loc: FileLoc) {
    IsValid(loc) ==> loc.info.value < |m.files|
  }

  /** `new_file_info(filename)` and `new_file_info(filename, parent_loc)`:
      the new info gets the number of infos created before it as its id. */
  function NewFileInfo(m: Mgr, name: string, parent: FileLoc): (r: (Mgr, nat))
    ensures r.1 == |m.files| && |r.0.files| == |m.files| + 1
    ensures r.0.files[r.1] == Entry(name, parent)
    ensures r.0.files[..|m.files|] == m.files
  {
    (Mgr(m.files + [Entry(name, parent)]), |m.files|)
  }

  /** `clear()`: every file info is forgotten. */
  function Clear(m: Mgr): (r: Mgr)
    ensures forall loc :: Known(r, loc) <==> !IsValid(loc)
  {
    Mgr([])
  }

  /** After `clear`, ids start again from 0. */
  lemma ClearRestartsIds(m: Mgr, name: string, parent: FileLoc)
    ensures NewFileInfo(Clear(m), name, parent).1 == 0
  {
  }

  /** A new info with an earlier file, or none, as its include location
      keeps the table well formed. */
  lemma NewFileInfoWellFormed(m: Mgr, name: string, parent: FileLoc)
    requires WellFormed(m) && Known(m, parent)
    ensures WellFormed(NewFileInfo(m, name, parent).0)
  {
  }

  /** A run of `new_file_info` calls for top-level files: the ids handed
      out are consecutive, starting at the table size. */
  method NewFileInfos(m: Mgr, names: seq<string>) returns (m': Mgr, ids: seq<nat>)
    ensures |ids| == |names| && |m'.files| == |m.files| + |names|
    ensures forall i :: 0 <= i < |ids| ==> ids[i] == |m.files| + i
    ensures forall i :: 0 <= i < |ids| ==> m'.files[ids[i]] == Entry(names[i], InvalidLoc)
    ensures m'.files[..|m.files|] == m.files
  {
    m' := m;
    ids := [];
    var k := 0;
    while k < |names|
      invariant k <= |names| && |ids| == k && |m'.files| == |m.files| + k
      invariant forall i :: 0 <= i < k ==> ids[i] == |m.files| + i
      invariant forall i :: 0 <= i < k ==> m'.files[|m.files| + i] == Entry(names[i], InvalidLoc)
      invariant m'.files[..|m.files|] == m.files
    {
      var id;
      ghost var before := m'.files;
      m', id := NewFileInfo(m', names[k], InvalidLoc).0, NewFileInfo(m', names[k], InvalidLoc).1;
      assert m'.files[..|before|] == before;
      assert m'.files[..|m.files|] == before[..|m.files|];
      ids := ids + [id];
      k := k + 1;
    }
  }

  /** `FileInfo::parent_loc()`. */
  function ParentLoc(m: Mgr, id: nat): FileLoc
    requires id < |m.files|
  {
    m.files[id].parent
  }

  /** Entry `i` of an include list names a known file whose own include
      location is the previous entry, or none for the first entry. */
  predicate Linked(m: Mgr, r: seq<FileLoc>, i: nat)
    requires i < |r|
  {
    IsValid(r[i]) && r[i].info.value < |m.files|
    && (i == 0 ==> !IsValid(ParentLoc(m, r[i].info.value)))
    && (i > 0 ==> ParentLoc(m, r[i].info.value) == r[i - 1])
  }

  /** The include locations above `loc`, top-level file first, ending with
      `loc` itself when it is valid. */
  function Chain(m: Mgr, loc: FileLoc): (r: seq<FileLoc>)
    requires WellFormed(m) && Known(m, loc)
    ensures |r| == 0 <==> !IsValid(loc)
    ensures IsValid(loc) ==> r[|r| - 1] == loc
    ensures forall i :: 0 <= i < |r| ==> IsValid(r[i]) && r[i].info.value < |m.files|
    ensures forall i :: 0 <= i < |r| ==> Linked(m, r, i)
    decreases if IsValid(loc) then loc.info.value + 1 else 0
  {
    if !IsValid(loc) then []
    else
      var up := Chain(m, ParentLoc(m, loc.info.value));
      LinkedSnoc(m, up, loc);
      up + [loc]
  }

  /** Appending the location whose include location ends a linked list
      keeps it linked. */
  lemma LinkedSnoc(m: Mgr, s: seq<FileLoc>, loc: FileLoc)
    requires IsValid(loc) && loc.info.value < |m.files|
    requires forall i :: 0 <= i < |s| ==> Linked(m, s, i)
    requires |s| == 0 ==> !IsValid(ParentLoc(m, loc.info.value))
    requires |s| > 0 ==> s[|s| - 1] == ParentLoc(m, loc.info.value)
    ensures forall i :: 0 <= i < |s| + 1 ==> Linked(m, s + [loc], i)
  {
    var r := s + [loc];
    forall i | 0 <= i < |r|
      ensures Linked(m, r, i)
    {
      if i < |s| {
        assert Linked(m, s, i);
        assert r[i] == s[i];
        assert i > 0 ==> r[i - 1] == s[i - 1];
      }
    }
  }

  /** `FileInfo::parent_loc_list()`: the include locations of file `id`,
      top-level file first. */
  function ParentLocList(m: Mgr, id: nat): (r: seq<FileLoc>)
    requires WellFormed(m) && id < |m.files|
    ensures |r| == 0 <==> !IsValid(ParentLoc(m, id))
    ensures |r| > 0 ==> r[|r| - 1] == ParentLoc(m, id)
    ensures forall i :: 0 <= i < |r| ==> IsValid(r[i]) && r[i].info.value < |m.files|
    ensures forall i :: 0 <= i < |r| ==> Linked(m, r, i)
  {
    Chain(m, ParentLoc(m, id))
  }

  /** The loop of `parent_loc_list`: walk up the parents, pushing each one
      to the front. */
  method ParentLocListLoop(m: Mgr, id: nat) returns (list: seq<FileLoc>)
    requires WellFormed(m) && id < |m.files|
    ensures list == ParentLocList(m, id)
  {
    list := [];
    var loc := ParentLoc(m, id);
    while IsValid(loc)
      invariant Known(m, loc)
      invariant ParentLocList(m, id) == Chain(m, loc) + list
      decreases if IsValid(loc) then loc.info.value + 1 else 0
    {
      var next := ParentLoc(m, loc.info.value);
      assert Chain(m, loc) == Chain(m, next) + [loc];
      AppendAssoc(Chain(m, next), [loc], list);
      list := [loc] + list;
      loc := next;
    }
  }

  /** A chain lists each file at most once: the file ids strictly
      increase from the top-level file down. */
  lemma {:induction false} ChainIncreasing(m: Mgr, loc: FileLoc)
    requires WellFormed(m) && Known(m, loc)
    ensures forall i, j :: 0 <= i < j < |Chain(m, loc)| ==> Chain(m, loc)[i].info.value < Chain(m, loc)[j].info.value
    decreases if IsValid(loc) then loc.info.value + 1 else 0
  {
    if IsValid(loc) {
      var up := ParentLoc(m, loc.info.value);
      ChainIncreasing(m, up);
      var r := Chain(m, loc);
      var s := Chain(m, up);
      assert r == s + [loc];
      forall i, j | 0 <= i < j < |r|
        ensures r[i].info.value < r[j].info.value
      {
        if j == |r| - 1 {
          ChainBelow(m, up, loc.info.value);
          assert r[i] == s[i] && r[j] == loc;
        } else {
          assert r[i] == s[i] && r[j] == s[j];
        }
      }
    }
  }

  /** Every file on the chain of `loc` comes before `bound` when `loc`
      does. */
  lemma {:induction false} ChainBelow(m: Mgr, loc: FileLoc, bound: nat)
    requires WellFormed(m) && Known(m, loc)
    requires IsValid(loc) ==> loc.info.value < bound
    ensures forall i :: 0 <= i < |Chain(m, loc)| ==> Chain(m, loc)[i].info.value < bound
    decreases if IsValid(loc) then loc.info.value + 1 else 0
  {
    if IsValid(loc) {
      var up := ParentLoc(m, loc.info.value);
      ChainBelow(m, up, bound);
      var r := Chain(m, loc);
      var s := Chain(m, up);
      assert r == s + [loc];
      forall i | 0 <= i < |r|
        ensures r[i].info.value < bound
      {
        if i < |s| {
          assert r[i] == s[i];
        } else {
          assert r[i] == loc;
        }
      }
    }
  }

  /** `"In file included from NAME: line L:"` and a line break. */
  function IncludeLine(m: Mgr, loc: FileLoc): string
    requires IsValid(loc) && loc.info.value < |m.files|
  {
    "In file included from " + m.files[loc.info.value].name + ": line " + NatToString(loc.line) + ":\n"
  }

  /** The include lines of a list of locations, in list order. */
  function IncludeLines(m: Mgr, locs: seq<FileLoc>): string
    requires forall i :: 0 <= i < |locs| ==> IsValid(locs[i]) && locs[i].info.value < |m.files|
  {
    if |locs| == 0 then "" else IncludeLines(m, locs[..|locs| - 1]) + IncludeLine(m, locs[|locs| - 1])
  }

  /** The text of file info `id`: one include line per ancestor, top-level
      file first, then the file name. */
  function InfoText(m: Mgr, id: nat): string
    requires WellFormed(m) && id < |m.files|
  {
    IncludeLines(m, ParentLocList(m, id)) + m.files[id].name
  }

  /** A top-level file prints as its bare name. */
  lemma InfoTextTopLevel(m: Mgr, id: nat)
    requires WellFormed(m) && id < |m.files| && !IsValid(ParentLoc(m, id))
    ensures InfoText(m, id) == m.files[id].name
  {
  }

  /** An included file prints the lines of its includer's ancestors, the
      line of its own include, then its name. */
  lemma InfoTextIncluded(m: Mgr, id: nat)
    requires WellFormed(m) && id < |m.files| && IsValid(ParentLoc(m, id))
    ensures var p := ParentLoc(m, id);
            InfoText(m, id) == IncludeLines(m, ParentLocList(m, p.info.value)) + IncludeLine(m, p) + m.files[id].name
  {
    var p := ParentLoc(m, id);
    var r := ParentLocList(m, id);
    assert r[..|r| - 1] == ParentLocList(m, p.info.value);
  }

  /** `": line L, column C"`. */
  function LineColumn(line: nat, column: nat): string {
    ": line " + NatToString(line) + ", column " + NatToString(column)
  }

  /** The text of a file location. */
  function LocText(m: Mgr, loc: FileLoc): (r: string)
    requires WellFormed(m) && Known(m, loc)
    ensures !IsValid(loc) <==> r == "invalid file_loc"
  {
    if IsValid(loc) then
      var t := InfoText(m, loc.info.value) + LineColumn(loc.line, loc.column);
      assert t[|t| - 1] == LineColumn(loc.line, loc.column)[|LineColumn(loc.line, loc.column)| - 1];
      t
    else "invalid file_loc"
  }

  /** A file region (`FileRegion`): its first and last positions. */
  datatype Region = Region(first: FileLoc, last: FileLoc)

  /** The region positions the text needs: a valid first file, and a
      valid last file whenever the two files differ. */
  predicate Printable(m: Mgr, reg: Region) {
    WellFormed(m) && Known(m, reg.first) && Known(m, reg.last)
    && (IsValid(reg.first) && reg.first.info != reg.last.info ==> IsValid(reg.last))
  }

  /** The text of a file region, in its five cases. */
  function RegionText(m: Mgr, reg: Region): (r: string)
    requires Printable(m, reg)
  {
    var f, l := reg.first, reg.last;
    if !IsValid(f) then "---"
    else if f.info != l.info then
      InfoText(m, f.info.value) + LineColumn(f.line, f.column) + " - "
        + InfoText(m, l.info.value) + LineColumn(l.line, l.column)
    else if f.line != l.line then
      InfoText(m, f.info.value) + LineColumn(f.line, f.column) + " - line " + NatToString(l.line)
        + ", column " + NatToString(l.column)
    else if f.column != l.column then
      InfoText(m, f.info.value) + LineColumn(f.line, f.column) + " - " + NatToString(l.column)
    else
      InfoText(m, f.info.value) + LineColumn(f.line, f.column)
  }

  /** A region without a valid first file is exactly the one printed as
      `---`. */
  lemma RegionTextInvalid(m: Mgr, reg: Region)
    requires Printable(m, reg)
    ensures RegionText(m, reg) == "---" <==> !IsValid(reg.first)
  {
    if IsValid(reg.first) {
      RegionTextStartsAtFirst(m, reg);
      var lc := LineColumn(reg.first.line, reg.first.column);
      assert |lc| > 3;
      assert |LocText(m, reg.first)| >= |lc|;
    }
  }

  /** A region of one position prints as that location. */
  lemma RegionTextPoint(m: Mgr, reg: Region)
    requires Printable(m, reg) && IsValid(reg.first) && reg.last == reg.first
    ensures RegionText(m, reg) == LocText(m, reg.first)
  {
  }

  /** A valid region's text begins with its first location's text. */
  lemma RegionTextStartsAtFirst(m: Mgr, reg: Region)
    requires Printable(m, reg) && IsValid(reg.first)
    ensures var r := RegionText(m, reg);
            var t := LocText(m, reg.first);
            |t| <= |r| && r[..|t|] == t
  {
  }

  /** Across files, the region prints as its two locations joined by
      `" - "`. */
  lemma RegionTextTwoFiles(m: Mgr, reg: Region)
    requires Printable(m, reg) && IsValid(reg.first) && reg.first.info != reg.last.info
    ensures RegionText(m, reg) == LocText(m, reg.first) + " - " + LocText(m, reg.last)
  {
  }
}
