/** Cursor and scrolling of file system/fm/file_manager.c. A directory listing is whatever the
    environment supplies: at most as many entries as the panel has slots, or a failure. */
module FileManager {
  import opened Common

  datatype File = File(name: string, isDir: bool)

  datatype Key = Up | Down | Enter(listing: Option<seq<File>>) | Tab | Quit | Other

  datatype Row = Blank | Shown(file: File, highlighted: bool)

  function Max(a: int, b: int): int {
    if a < b then b else a
  }

  function Distance(a: int, b: int): nat {
    if a < b then b - a else a - b
  }

  // ----- What the keys mean -----

  /** A panel's list (with the stale entries behind it), cursor and first row. */
  datatype View = View(files: seq<File>, count: int, current: int, scroll: int)

  /** The cursor is on a file (or on slot 0 of an empty list), the window shows it, and the window
      does not extend past the end while it could be filled. */
  ghost predicate InView(v: View, height: int) {
    && height >= 1 && |v.files| >= 1
    && 0 <= v.count <= |v.files|
    && 0 <= v.scroll <= v.current < v.scroll + height
    && v.current < Max(1, v.count)
    && v.scroll <= Max(0, v.count - height)
  }

  /** The offset nearest to the present one that shows the cursor in a window of this height. */
  function Nearest(offset: int, cursor: int, height: int): (r: int)
    requires height >= 1
    ensures r <= cursor < r + height
    ensures forall other :: other <= cursor < other + height ==> Distance(offset, r) <= Distance(offset, other)
  {
    if cursor < offset then cursor
    else if cursor >= offset + height then cursor - height + 1
    else offset
  }

  function MoveTo(v: View, cursor: int, height: int): View
    requires height >= 1
  {
    v.(current := cursor, scroll := Nearest(v.scroll, cursor, height))
  }

  predicate Fits(v: View, listing: Option<seq<File>>) {
    listing.Some? ==> |listing.value| <= |v.files|
  }

  function Listed(v: View, listing: Option<seq<File>>): View
    requires Fits(v, listing)
  {
    if listing.None? then v
    else v.(files := listing.value + v.files[|listing.value|..], count := |listing.value|)
  }

  function Navigate(v: View, key: Key, height: int): View
    requires InView(v, height) && (key.Enter? ==> Fits(v, key.listing))
  {
    match key
    case Up => MoveTo(v, Max(0, v.current - 1), height)
    case Down => MoveTo(v, if v.current + 1 < v.count then v.current + 1 else v.current, height)
    case Enter(listing) =>
      if v.files[v.current].isDir then Listed(v, listing).(current := 0, scroll := 0) else v
    case _ => v
  }

  /** Every key keeps the cursor in view. */
  lemma NavigateKeepsView(v: View, key: Key, height: int)
    requires InView(v, height) && (key.Enter? ==> Fits(v, key.listing))
    ensures InView(Navigate(v, key, height), height)
    ensures |Navigate(v, key, height).files| == |v.files|
  {
  }

  datatype Desk = Desk(left: View, right: View, active: int)

  ghost predicate BothInView(d: Desk, height: int) {
    && (d.active == 0 || d.active == 1)
    && InView(d.left, height) && InView(d.right, height)
  }

  predicate Listable(d: Desk, key: Key) {
    key.Enter? ==> Fits(d.left, key.listing) && Fits(d.right, key.listing)
  }

  ghost predicate AllListable(d: Desk, keys: seq<Key>) {
    forall i :: 0 <= i < |keys| ==> Listable(d, keys[i])
  }

  lemma StillListable(d: Desk, keys: seq<Key>, height: int)
    requires BothInView(d, height) && keys != [] && AllListable(d, keys)
    ensures AllListable(Press(d, keys[0], height), keys[1..])
  {
    forall i | 0 <= i < |keys[1..]| ensures Listable(d, keys[1..][i]) {
      assert Listable(d, keys[i + 1]);
    }
  }

  function Press(d: Desk, key: Key, height: int): (r: Desk)
    requires BothInView(d, height) && Listable(d, key)
    ensures BothInView(r, height)
    ensures |r.left.files| == |d.left.files| && |r.right.files| == |d.right.files|
  {
    if key.Tab? then d.(active := 1 - d.active)
    else if d.active == 0 then
      NavigateKeepsView(d.left, key, height);
      d.(left := Navigate(d.left, key, height))
    else
      NavigateKeepsView(d.right, key, height);
      d.(right := Navigate(d.right, key, height))
  }

  /** All the keys up to the first `q`. Both cursors stay in view over every run. */
  function PressAll(d: Desk, keys: seq<Key>, height: int): (r: Desk)
    requires BothInView(d, height) && AllListable(d, keys)
    ensures BothInView(r, height)
    ensures |r.left.files| == |d.left.files| && |r.right.files| == |d.right.files|
    decreases |keys|
  {
    if keys == [] || keys[0].Quit? then d
    else
      StillListable(d, keys, height);
      PressAll(Press(d, keys[0], height), keys[1..], height)
  }

  lemma AllListableSplits(d: Desk, first: seq<Key>, second: seq<Key>)
    requires AllListable(d, first + second)
    ensures AllListable(d, first) && AllListable(d, second)
  {
    forall i | 0 <= i < |first| ensures Listable(d, first[i]) {
      assert first[i] == (first + second)[i];
    }
    forall i | 0 <= i < |second| ensures Listable(d, second[i]) {
      assert second[i] == (first + second)[|first| + i];
    }
  }

  /** Keys before any `q` and keys after them can be pressed in two goes. */
  lemma {:induction false} PressAllComposes(d: Desk, first: seq<Key>, second: seq<Key>, height: int)
    requires BothInView(d, height) && AllListable(d, first) && AllListable(d, second) && AllListable(d, first + second)
    requires forall i :: 0 <= i < |first| ==> !first[i].Quit?
    ensures AllListable(PressAll(d, first, height), second)
    ensures PressAll(d, first + second, height) == PressAll(PressAll(d, first, height), second, height)
    decreases |first|
  {
    if first == [] {
      assert first + second == second;
    } else {
      var d' := Press(d, first[0], height);
      assert (first + second)[1..] == first[1..] + second;
      StillListable(d, first, height);
      StillListable(d, first + second, height);
      AllListableSplits(d', first[1..], second);
      PressAllComposes(d', first[1..], second, height);
    }
  }

  /** What follows a `q` does not matter. */
  lemma QuitEnds(d: Desk, first: seq<Key>, rest: seq<Key>, height: int)
    requires BothInView(d, height) && AllListable(d, first) && AllListable(d, first + ([Quit] + rest))
    requires forall i :: 0 <= i < |first| ==> !first[i].Quit?
    ensures PressAll(d, first + ([Quit] + rest), height) == PressAll(d, first, height)
  {
    AllListableSplits(d, first, [Quit] + rest);
    PressAllComposes(d, first, [Quit] + rest, height);
  }

  /** How many Tabs are pressed before the first `q`. */
  function Tabs(keys: seq<Key>): nat {
    if keys == [] || keys[0].Quit? then 0 else (if keys[0].Tab? then 1 else 0) + Tabs(keys[1..])
  }

  function TabPositions(keys: seq<Key>): set<nat> {
    set i: nat | i < |keys| && keys[i].Tab?
  }

  lemma {:induction false} TabsWithoutQuit(keys: seq<Key>)
    requires forall i :: 0 <= i < |keys| ==> !keys[i].Quit?
    ensures Tabs(keys) == |TabPositions(keys)|
  {
    if keys == [] {
      assert TabPositions(keys) == {};
    } else {
      var front, last := keys[..|keys| - 1], |keys| - 1;
      TabsWithoutQuit(front);
      TabsAppend(front, keys[last]);
      assert keys == front + [keys[last]];
      assert TabPositions(keys) == TabPositions(front) + if keys[last].Tab? then {last} else {};
    }
  }

  lemma {:induction false} TabsAppend(keys: seq<Key>, key: Key)
    requires (forall i :: 0 <= i < |keys| ==> !keys[i].Quit?) && !key.Quit?
    ensures Tabs(keys + [key]) == Tabs(keys) + if key.Tab? then 1 else 0
  {
    if keys != [] {
      assert (keys + [key])[1..] == keys[1..] + [key];
      TabsAppend(keys[1..], key);
    }
  }

  /** Each Tab changes the active panel and nothing else does: it is the first one at the end exactly
      when the number of Tabs has the parity of the start. */
  lemma {:induction false} TabsAlternate(d: Desk, keys: seq<Key>, height: int)
    requires BothInView(d, height) && AllListable(d, keys)
    ensures PressAll(d, keys, height).active == if Tabs(keys) % 2 == 0 then d.active else 1 - d.active
    decreases |keys|
  {
    if keys != [] && !keys[0].Quit? {
      StillListable(d, keys, height);
      TabsAlternate(Press(d, keys[0], height), keys[1..], height);
    }
  }

  /** After a Tab the keys up to the next one reach only the panel that was not active before. */
  lemma TabReachesOther(d: Desk, keys: seq<Key>, height: int)
    requires BothInView(d, height) && AllListable(d, [Tab] + keys)
    requires forall i :: 0 <= i < |keys| ==> !keys[i].Tab?
    ensures AllListable(d, keys)
    ensures var r := PressAll(d, [Tab] + keys, height);
            && r.active == 1 - d.active
            && (d.active == 0 ==> r.left == d.left && r.right == PressAll(d.(active := 1), keys, height).right)
            && (d.active == 1 ==> r.right == d.right && r.left == PressAll(d.(active := 0), keys, height).left)
  {
    AllListableSplits(d, [Tab], keys);
    StillListable(d, [Tab] + keys, height);
    assert ([Tab] + keys)[1..] == keys;
    InactiveUntouched(Press(d, Tab, height), keys, height);
  }

  /** Until a Tab, a run never touches the panel that is not active. */
  lemma {:induction false} InactiveUntouched(d: Desk, keys: seq<Key>, height: int)
    requires BothInView(d, height) && AllListable(d, keys)
    requires forall i :: 0 <= i < |keys| ==> !keys[i].Tab?
    ensures var r := PressAll(d, keys, height);
            r.active == d.active && (d.active == 0 ==> r.right == d.right) && (d.active == 1 ==> r.left == d.left)
    decreases |keys|
  {
    if keys != [] && !keys[0].Quit? {
      StillListable(d, keys, height);
      InactiveUntouched(Press(d, keys[0], height), keys[1..], height);
    }
  }

  /** From any visible cursor, k times Down and k times Up bring the cursor back, if the list is long
      enough; the window need not have come back with it. */
  lemma {:induction false} DownThenUp(v: View, k: nat, height: int)
    requires InView(v, height) && v.current + k < v.count
    ensures var down := Repeat(v, Down, k, height);
            InView(down, height) && down.current == v.current + k &&
            Repeat(down, Up, k, height).current == v.current
  {
    RepeatDown(v, k, height);
    RepeatUp(Repeat(v, Down, k, height), k, height);
  }

  function Repeat(v: View, key: Key, k: nat, height: int): (r: View)
    requires InView(v, height) && !key.Enter?
    ensures InView(r, height) && r.files == v.files && r.count == v.count
    decreases k
  {
    NavigateKeepsView(v, key, height);
    if k == 0 then v else Repeat(Navigate(v, key, height), key, k - 1, height)
  }

  lemma {:induction false} RepeatDown(v: View, k: nat, height: int)
    requires InView(v, height) && v.current + k < v.count
    ensures Repeat(v, Down, k, height).current == v.current + k
    decreases k
  {
    NavigateKeepsView(v, Down, height);
    if k > 0 {
      RepeatDown(Navigate(v, Down, height), k - 1, height);
    }
  }

  lemma {:induction false} RepeatUp(v: View, k: nat, height: int)
    requires InView(v, height) && v.current >= k
    ensures Repeat(v, Up, k, height).current == v.current - k
    decreases k
  {
    NavigateKeepsView(v, Up, height);
    if k > 0 {
      RepeatUp(Navigate(v, Up, height), k - 1, height);
    }
  }

  // ----- The code -----

  class Panel {
    const files: array<File>
    var fileCount: int
    var currentFile: int
    var scrollOffset: int

    ghost function Snapshot(): View
      reads this, files
    {
      View(files[..], fileCount, currentFile, scrollOffset)
    }

    constructor (slots: nat)
      ensures fresh(files) && files.Length == slots
      ensures fileCount == currentFile == scrollOffset == 0
    {
      files := new File[slots](_ => File("", false));
      fileCount, currentFile, scrollOffset := 0, 0, 0;
    }

    /** list_files: a failed opendir leaves the list as it is. */
    method ListFiles(listing: Option<seq<File>>)
      requires Fits(Snapshot(), listing)
      modifies this`fileCount, files
      ensures Snapshot() == Listed(old(Snapshot()), listing)
      ensures listing.None? ==> fileCount == old(fileCount) && files[..] == old(files[..])
      ensures listing.Some? ==>
                && fileCount == |listing.value|
                && (forall k :: 0 <= k < fileCount ==> files[k] == listing.value[k])
                && (forall k :: fileCount <= k < files.Length ==> files[k] == old(files[k]))
    {
      if listing.None? {
        return;
      }
      fileCount := 0;
      for i := 0 to |listing.value|
        invariant fileCount == i
        invariant forall k :: 0 <= k < i ==> files[k] == listing.value[k]
        invariant forall k :: i <= k < files.Length ==> files[k] == old(files[k])
      {
        files[fileCount] := listing.value[i];
        fileCount := fileCount + 1;
      }
      assert files[..] == listing.value + old(files[..])[|listing.value|..];
    }

    /** handle_navigation: the code moves the offset by one at most, and that always is the nearest
        offset showing the new cursor. */
    method HandleNavigation(key: Key, height: int)
      requires InView(Snapshot(), height) && (key.Enter? ==> Fits(Snapshot(), key.listing))
      modifies this, files
      ensures Snapshot() == Navigate(old(Snapshot()), key, height)
      ensures key.Up? && old(currentFile) == 0 ==> Snapshot() == old(Snapshot())
      ensures key.Up? && old(currentFile) > 0 ==> currentFile == old(currentFile) - 1
      ensures key.Down? && old(currentFile) + 1 >= fileCount ==> Snapshot() == old(Snapshot())
      ensures key.Down? && old(currentFile) + 1 < fileCount ==> currentFile == old(currentFile) + 1
      ensures key.Up? || key.Down? ==>
                && fileCount == old(fileCount) && files[..] == old(files[..])
                && scrollOffset == old(scrollOffset) + (if currentFile < old(scrollOffset) then -1
                                                        else if currentFile >= old(scrollOffset) + height then 1 else 0)
      ensures key.Enter? && !old(files[currentFile].isDir) ==> Snapshot() == old(Snapshot())
      ensures key.Enter? && old(files[currentFile].isDir) ==>
                && currentFile == 0 && scrollOffset == 0
                && fileCount == (if key.listing.Some? then |key.listing.value| else old(fileCount))
                && forall k :: 0 <= k < files.Length ==>
                     files[k] == if key.listing.Some? && k < fileCount then key.listing.value[k] else old(files[k])
      ensures key.Tab? || key.Quit? || key.Other? ==> Snapshot() == old(Snapshot())
    {
      match key {
        case Up =>
          if currentFile > 0 {
            currentFile := currentFile - 1;
            if currentFile < scrollOffset {
              scrollOffset := scrollOffset - 1;
            }
          }
        case Down =>
          if currentFile < fileCount - 1 {
            currentFile := currentFile + 1;
            if currentFile >= scrollOffset + height {
              scrollOffset := scrollOffset + 1;
            }
          }
        case Enter(listing) =>
          if files[currentFile].isDir {
            ListFiles(listing);
            currentFile := 0;
            scrollOffset := 0;
          }
        case _ =>
      }
    }

    /** display_panel, as the rows it draws: the cursor's row is among them and is the only one
        highlighted, and no row is blank while there are files to fill the window. */
    method DisplayPanel(height: int, active: bool) returns (rows: seq<Row>)
      requires InView(Snapshot(), height)
      ensures |rows| == height
      ensures forall i :: 0 <= i < height && i + scrollOffset < fileCount ==>
                rows[i] == Shown(files[i + scrollOffset], active && i + scrollOffset == currentFile)
      ensures forall i :: 0 <= i < height && i + scrollOffset >= fileCount ==> rows[i] == Blank
      ensures fileCount > 0 ==> rows[currentFile - scrollOffset] == Shown(files[currentFile], active)
      ensures fileCount >= height ==> Blank !in rows
    {
      rows := [];
      for i := 0 to height
        invariant |rows| == i
        invariant forall k :: 0 <= k < i && k + scrollOffset < fileCount ==>
                    rows[k] == Shown(files[k + scrollOffset], active && k + scrollOffset == currentFile)
        invariant forall k :: 0 <= k < i && k + scrollOffset >= fileCount ==> rows[k] == Blank
      {
        var fileIndex := i + scrollOffset;
        if fileIndex < fileCount {
          rows := rows + [Shown(files[fileIndex], fileIndex == currentFile && active)];
        } else {
          rows := rows + [Blank];
        }
      }
    }
  }

  /** The two panels and the dispatch of `main`. */
  class Manager {
    const left: Panel
    const right: Panel
    const height: int
    var activePanel: int

    ghost predicate Valid()
      reads this, left, right, left.files, right.files
    {
      left != right && left.files != right.files && BothInView(Snapshot(), height)
    }

    ghost function Snapshot(): Desk
      reads this, left, right, left.files, right.files
    {
      Desk(left.Snapshot(), right.Snapshot(), activePanel)
    }

    /** Start-up: each panel tries to list its directory. */
    constructor (slots: nat, height: int, first: Option<seq<File>>, second: Option<seq<File>>)
      requires slots >= 1 && height >= 1
      requires first.Some? ==> |first.value| <= slots
      requires second.Some? ==> |second.value| <= slots
      ensures Valid() && this.height == height && activePanel == 0
      ensures left.fileCount == if first.Some? then |first.value| else 0
      ensures right.fileCount == if second.Some? then |second.value| else 0
      ensures left.files.Length == right.files.Length == slots
      ensures first.Some? ==> forall k :: 0 <= k < |first.value| ==> left.files[k] == first.value[k]
      ensures second.Some? ==> forall k :: 0 <= k < |second.value| ==> right.files[k] == second.value[k]
      ensures left.currentFile == left.scrollOffset == right.currentFile == right.scrollOffset == 0
      ensures fresh(left) && fresh(right) && fresh(left.files) && fresh(right.files)
    {
      var l := new Panel(slots);
      l.ListFiles(first);
      var r := new Panel(slots);
      r.ListFiles(second);
      left, right := l, r;
      this.height := height;
      activePanel := 0;
    }

    /** Up, Down and Enter go to the active panel. */
    method HandlePanelKey(key: Key)
      requires Valid() && Listable(Snapshot(), key) && !key.Tab?
      modifies left, right, left.files, right.files
      ensures left.Snapshot() ==
              if activePanel == 0 then Navigate(old(left.Snapshot()), key, height) else old(left.Snapshot())
      ensures right.Snapshot() ==
              if activePanel == 0 then old(right.Snapshot()) else Navigate(old(right.Snapshot()), key, height)
    {
      if activePanel == 0 {
        left.HandleNavigation(key, height);
      } else {
        right.HandleNavigation(key, height);
      }
    }

    method HandleKey(key: Key)
      requires Valid() && Listable(Snapshot(), key)
      modifies this`activePanel, left, right, left.files, right.files
      ensures Valid()
      ensures Snapshot() == Press(old(Snapshot()), key, height)
      ensures key.Tab? ==>
                && activePanel == 1 - old(activePanel)
                && left.Snapshot() == old(left.Snapshot()) && right.Snapshot() == old(right.Snapshot())
      ensures !key.Tab? ==> activePanel == old(activePanel)
      ensures !key.Tab? && activePanel == 0 ==>
                right.Snapshot() == old(right.Snapshot()) && left.Snapshot() == Navigate(old(left.Snapshot()), key, height)
      ensures !key.Tab? && activePanel == 1 ==>
                left.Snapshot() == old(left.Snapshot()) && right.Snapshot() == Navigate(old(right.Snapshot()), key, height)
    {
      match key {
        case Tab => activePanel := 1 - activePanel;
        case Quit | Other =>
        case _ => HandlePanelKey(key);
      }
    }

    /** The main loop, up to the first `q`. */
    method Session(keys: seq<Key>)
      requires Valid() && AllListable(Snapshot(), keys)
      modifies this`activePanel, left, right, left.files, right.files
      ensures Valid()
      ensures Snapshot() == PressAll(old(Snapshot()), keys, height)
      ensures 0 <= left.scrollOffset <= left.currentFile < left.scrollOffset + height
      ensures 0 <= right.scrollOffset <= right.currentFile < right.scrollOffset + height
      ensures left.currentFile < Max(1, left.fileCount) && left.scrollOffset <= Max(0, left.fileCount - height)
      ensures right.currentFile < Max(1, right.fileCount) && right.scrollOffset <= Max(0, right.fileCount - height)
    {
      var i := 0;
      while i < |keys| && !keys[i].Quit?
        invariant Valid() && i <= |keys|
        invariant AllListable(Snapshot(), keys)
        invariant PressAll(Snapshot(), keys[i..], height) == PressAll(old(Snapshot()), keys, height)
      {
        assert keys[i..][1..] == keys[i + 1..];
        HandleKey(keys[i]);
        i := i + 1;
      }
    }
  }
}
