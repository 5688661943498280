/** `MyPlaylist`: an ordered list of media files with one optional current
    row, as the list widget keeps it. */
module Playlist {

  /** One row: the file name shown and the full path it plays. */
  datatype Item = Item(displayText: string, fullPath: string)

  /** `current` is the current row, or -1 when there is none. */
  datatype Playlist = Playlist(items: seq<Item>, current: int)

  predicate Valid(pl: Playlist)
  {
    -1 <= pl.current < |pl.items|
  }

  function Empty(): (pl: Playlist)
    ensures Valid(pl) && |pl.items| == 0
  {
    Playlist([], -1)
  }

  /** `fullPath.split("/")[-1]`: the text after the last `/` (all of it when
      there is none, nothing when the path ends in `/`). */
  function DisplayName(p: string): (r: string)
    ensures |r| <= |p| && r == p[|p| - |r|..]
    ensures '/' !in r
    ensures |r| < |p| ==> p[|p| - |r| - 1] == '/'
  {
    if |p| == 0 then ""
    else if p[|p| - 1] == '/' then ""
    else DisplayName(p[..|p| - 1]) + [p[|p| - 1]]
  }

  /** The display name of `dir + name` is `name`, whenever `dir` is empty or
      ends in `/` and `name` holds no `/`. */
  lemma {:induction false} DisplayNameOfJoin(dir: string, name: string)
    requires |dir| == 0 || dir[|dir| - 1] == '/'
    requires '/' !in name
    ensures DisplayName(dir + name) == name
    decreases |name|
  {
    if |name| == 0 {
      assert dir + name == dir;
    } else {
      var n', c := name[..|name| - 1], name[|name| - 1];
      DropLast(dir, name);
      DisplayNameOfJoin(dir, n');
      assert DisplayName(dir + name) == DisplayName(dir + n') + [c];
      assert name == n' + [c];
    }
  }

  /** Dropping the last character of `dir + name` drops it from `name`. */
  lemma DropLast(dir: string, name: string)
    requires |name| > 0 && '/' !in name
    ensures '/' !in name[..|name| - 1] && name[|name| - 1] != '/'
    ensures (dir + name)[..|dir + name| - 1] == dir + name[..|name| - 1]
    ensures (dir + name)[|dir + name| - 1] == name[|name| - 1]
  {
    assert name == name[..|name| - 1] + [name[|name| - 1]];
  }

  /** `addPLItem`: append a row for the path; no other row and not the
      current row change. */
  function AddItem(pl: Playlist, p: string): (r: Playlist)
    ensures |r.items| == |pl.items| + 1 && r.items[..|pl.items|] == pl.items
    ensures r.items[|pl.items|] == Item(DisplayName(p), p)
    ensures '/' !in r.items[|pl.items|].displayText
    ensures r.current == pl.current
    ensures Valid(pl) ==> Valid(r)
  {
    Playlist(pl.items + [Item(DisplayName(p), p)], pl.current)
  }

  /** A file `name` added from any directory gets a row showing `name` and
      remembering the whole path. */
  lemma AddFileShowsName(pl: Playlist, dir: string, name: string)
    requires |dir| == 0 || dir[|dir| - 1] == '/'
    requires '/' !in name
    ensures AddItem(pl, dir + name).items[|pl.items|] == Item(name, dir + name)
  {
    DisplayNameOfJoin(dir, name);
  }

  /** `setCurrentItem(item(row))`: a row outside the list gives no item, and
      setting no item clears the current row. */
  function SelectRow(pl: Playlist, row: int): (r: Playlist)
    ensures r.items == pl.items && Valid(r)
    ensures 0 <= row < |pl.items| ==> r.current == row
    ensures !(0 <= row < |pl.items|) ==> r.current == -1
  {
    Playlist(pl.items, if 0 <= row < |pl.items| then row else -1)
  }

  /** `setPrev`: one row up; from the first row, or with no current row,
      nothing is current afterwards. */
  function SetPrev(pl: Playlist): (r: Playlist)
    ensures r.items == pl.items && Valid(r)
    ensures 1 <= pl.current < |pl.items| + 1 ==> r.current == pl.current - 1
    ensures pl.current <= 0 ==> r.current == -1
  {
    SelectRow(pl, pl.current - 1)
  }

  /** `setNext`: one row down; past the last row nothing is current, and
      with no current row the first row becomes current. */
  function SetNext(pl: Playlist): (r: Playlist)
    ensures r.items == pl.items && Valid(r)
    ensures -1 <= pl.current < |pl.items| - 1 ==> r.current == pl.current + 1
    ensures pl.current >= |pl.items| - 1 ==> r.current == -1
  {
    SelectRow(pl, pl.current + 1)
  }

  /** Next undoes Prev and Prev undoes Next away from the ends of the list. */
  lemma PrevNextInverse(pl: Playlist)
    requires Valid(pl)
    ensures 1 <= pl.current ==> SetNext(SetPrev(pl)) == pl
    ensures 0 <= pl.current < |pl.items| - 1 ==> SetPrev(SetNext(pl)) == pl
  {
  }

  /** Repeated Next from no current row walks the list in order. */
  lemma {:induction false} NextWalk(pl: Playlist, k: nat)
    requires pl.current == -1 && k <= |pl.items|
    ensures Iterate(pl, k).items == pl.items
    ensures Iterate(pl, k).current == (if k == 0 then -1 else k - 1)
  {
    if k > 0 {
      NextWalk(pl, k - 1);
    }
  }

  /** `k` presses of Next. */
  function Iterate(pl: Playlist, k: nat): Playlist
  {
    if k == 0 then pl else SetNext(Iterate(pl, k - 1))
  }

  /** `setActiveItem`: the first row holding the path becomes current; when
      no row holds it nothing changes. */
  method SetActiveItem(pl: Playlist, p: string) returns (r: Playlist)
    ensures r.items == pl.items
    ensures (exists i :: 0 <= i < |pl.items| && pl.items[i].fullPath == p) ==>
      (0 <= r.current < |pl.items| && pl.items[r.current].fullPath == p &&
       forall j :: 0 <= j < r.current ==> pl.items[j].fullPath != p)
    ensures (forall i :: 0 <= i < |pl.items| ==> pl.items[i].fullPath != p) ==> r == pl
  {
    r := pl;
    var i := 0;
    while i < |pl.items|
      invariant 0 <= i <= |pl.items|
      invariant r == pl
      invariant forall j :: 0 <= j < i ==> pl.items[j].fullPath != p
    {
      if pl.items[i].fullPath == p {
        r := SelectRow(pl, i);
        return;
      }
      i := i + 1;
    }
  }
}
