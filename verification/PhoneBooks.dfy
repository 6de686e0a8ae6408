/**
  The two phone books: a fixed array that deletes by shifting left (structs/task.c) and a
  reallocated one that deletes by moving the last record into the gap (dynamic/task.c).
*/
module PhoneBooks {

  datatype Record = Record(name: string, secondName: string, tel: string)

  const BLANK := Record("", "", "")

  /** The choices of the menu but for the exit, which ends a session. */
  datatype Command = Add(r: Record) | Delete(name: string) | Search(name: string) | PrintAll | Invalid

  // ----- The books as sequences -----

  /** Index of the first record with this name, the length if there is none. */
  function First(s: seq<Record>, name: string): (i: nat)
    ensures i <= |s|
    ensures i < |s| ==> s[i].name == name
    ensures forall k :: 0 <= k < i ==> s[k].name != name
  {
    if s == [] || s[0].name == name then 0 else 1 + First(s[1..], name)
  }

  function DeleteShift(s: seq<Record>, name: string): seq<Record> {
    var i := First(s, name);
    if i == |s| then s else s[..i] + s[i + 1..]
  }

  function DeleteSwap(s: seq<Record>, name: string): seq<Record> {
    var i := First(s, name);
    if i == |s| then s else s[i := s[|s| - 1]][..|s| - 1]
  }

  function Matching(s: seq<Record>, name: string): seq<Record> {
    if s == [] then []
    else
      var last := s[|s| - 1];
      Matching(s[..|s| - 1], name) + if last.name == name then [last] else []
  }

  lemma FirstIs(s: seq<Record>, name: string, i: nat)
    requires i <= |s| && (i < |s| ==> s[i].name == name)
    requires forall k :: 0 <= k < i ==> s[k].name != name
    ensures First(s, name) == i
  {
  }

  function ShiftStep(capacity: nat, s: seq<Record>, c: Command): seq<Record> {
    match c
    case Add(r) => if |s| >= capacity then s else s + [r]
    case Delete(name) => DeleteShift(s, name)
    case _ => s
  }

  function SwapStep(s: seq<Record>, c: Command): seq<Record> {
    match c
    case Add(r) => s + [r]
    case Delete(name) => DeleteSwap(s, name)
    case _ => s
  }

  function ShiftRun(capacity: nat, s: seq<Record>, commands: seq<Command>): seq<Record>
    decreases |commands|
  {
    if commands == [] then s
    else ShiftRun(capacity, ShiftStep(capacity, s, commands[0]), commands[1..])
  }

  function SwapRun(s: seq<Record>, commands: seq<Command>): seq<Record>
    decreases |commands|
  {
    if commands == [] then s else SwapRun(SwapStep(s, commands[0]), commands[1..])
  }

  /** The records a command prints. */
  function Printed(s: seq<Record>, c: Command): seq<Record> {
    match c
    case Search(name) => Matching(s, name)
    case PrintAll => s
    case _ => []
  }

  /** What each command of a session prints, in turn. */
  function ShiftOutput(capacity: nat, s: seq<Record>, commands: seq<Command>): seq<seq<Record>>
    decreases |commands|
  {
    if commands == [] then []
    else [Printed(s, commands[0])] + ShiftOutput(capacity, ShiftStep(capacity, s, commands[0]), commands[1..])
  }

  function SwapOutput(s: seq<Record>, commands: seq<Command>): seq<seq<Record>>
    decreases |commands|
  {
    if commands == [] then []
    else [Printed(s, commands[0])] + SwapOutput(SwapStep(s, commands[0]), commands[1..])
  }

  lemma ShiftUnfolds(capacity: nat, s: seq<Record>, commands: seq<Command>, i: nat)
    requires i < |commands|
    ensures var s' := ShiftStep(capacity, s, commands[i]);
            && ShiftRun(capacity, s, commands[i..]) == ShiftRun(capacity, s', commands[i + 1..])
            && forall output :: output + ShiftOutput(capacity, s, commands[i..]) ==
                 (output + [Printed(s, commands[i])]) + ShiftOutput(capacity, s', commands[i + 1..])
  {
    assert commands[i..][1..] == commands[i + 1..];
  }

  lemma SwapUnfolds(s: seq<Record>, commands: seq<Command>, i: nat)
    requires i < |commands|
    ensures var s' := SwapStep(s, commands[i]);
            && SwapRun(s, commands[i..]) == SwapRun(s', commands[i + 1..])
            && forall output :: output + SwapOutput(s, commands[i..]) ==
                 (output + [Printed(s, commands[i])]) + SwapOutput(s', commands[i + 1..])
  {
    assert commands[i..][1..] == commands[i + 1..];
  }

  // ----- Sessions piece by piece -----

  lemma {:induction false} ShiftRunsCompose(capacity: nat, s: seq<Record>, first: seq<Command>, second: seq<Command>)
    ensures ShiftRun(capacity, s, first + second) == ShiftRun(capacity, ShiftRun(capacity, s, first), second)
    ensures ShiftOutput(capacity, s, first + second) ==
            ShiftOutput(capacity, s, first) + ShiftOutput(capacity, ShiftRun(capacity, s, first), second)
    decreases |first|
  {
    if first == [] {
      assert first + second == second;
    } else {
      assert (first + second)[1..] == first[1..] + second;
      ShiftRunsCompose(capacity, ShiftStep(capacity, s, first[0]), first[1..], second);
    }
  }

  lemma {:induction false} SwapRunsCompose(s: seq<Record>, first: seq<Command>, second: seq<Command>)
    ensures SwapRun(s, first + second) == SwapRun(SwapRun(s, first), second)
    ensures SwapOutput(s, first + second) == SwapOutput(s, first) + SwapOutput(SwapRun(s, first), second)
    decreases |first|
  {
    if first == [] {
      assert first + second == second;
    } else {
      assert (first + second)[1..] == first[1..] + second;
      SwapRunsCompose(SwapStep(s, first[0]), first[1..], second);
    }
  }

  /** A session of one command. */
  lemma OneCommand(capacity: nat, s: seq<Record>, c: Command)
    ensures ShiftRun(capacity, s, [c]) == ShiftStep(capacity, s, c) && ShiftOutput(capacity, s, [c]) == [Printed(s, c)]
    ensures SwapRun(s, [c]) == SwapStep(s, c) && SwapOutput(s, [c]) == [Printed(s, c)]
  {
    assert [c][1..] == [];
  }

  lemma {:induction false} OutputPerCommand(capacity: nat, s: seq<Record>, commands: seq<Command>)
    ensures |ShiftOutput(capacity, s, commands)| == |commands|
    decreases |commands|
  {
    if commands != [] {
      OutputPerCommand(capacity, ShiftStep(capacity, s, commands[0]), commands[1..]);
    }
  }

  /** An addition refused because the book is full can be struck from a session: the final book and
      everything printed before and after it stay the same, and it prints nothing itself. */
  lemma RefusedAddition(capacity: nat, s: seq<Record>, before: seq<Command>, r: Record, after: seq<Command>)
    requires |ShiftRun(capacity, s, before)| >= capacity
    ensures ShiftRun(capacity, s, before + [Add(r)] + after) == ShiftRun(capacity, s, before + after)
    ensures var k := |before|;
            var output := ShiftOutput(capacity, s, before + [Add(r)] + after);
            var struck := ShiftOutput(capacity, s, before + after);
            && |output| == k + 1 + |after| && |struck| == k + |after|
            && output[..k] == struck[..k] && output[k] == [] && output[k + 1..] == struck[k..]
  {
    var full := ShiftRun(capacity, s, before);
    ShiftRunsCompose(capacity, s, before, after);
    ShiftRunsCompose(capacity, s, before + [Add(r)], after);
    ShiftRunsCompose(capacity, s, before, [Add(r)]);
    OneCommand(capacity, full, Add(r));
    OutputPerCommand(capacity, s, before);
    OutputPerCommand(capacity, full, after);
  }

  /** The session without its refused additions. */
  function Struck(capacity: nat, s: seq<Record>, commands: seq<Command>): seq<Command>
    decreases |commands|
  {
    if commands == [] then []
    else
      var rest := Struck(capacity, ShiftStep(capacity, s, commands[0]), commands[1..]);
      if commands[0].Add? && |s| >= capacity then rest else [commands[0]] + rest
  }

  /** The array book never has to refuse a record. */
  predicate Fits(capacity: nat, s: seq<Record>, commands: seq<Command>)
    decreases |commands|
  {
    commands == [] ||
    ((commands[0].Add? ==> |s| < capacity)
     && Fits(capacity, ShiftStep(capacity, s, commands[0]), commands[1..]))
  }

  /** Striking all of them leaves a session that fits and ends with the same book; a session fits
      exactly when there is nothing to strike. */
  lemma {:induction false} StruckSession(capacity: nat, s: seq<Record>, commands: seq<Command>)
    ensures ShiftRun(capacity, s, Struck(capacity, s, commands)) == ShiftRun(capacity, s, commands)
    ensures Fits(capacity, s, Struck(capacity, s, commands))
    ensures |Struck(capacity, s, commands)| <= |commands|
    ensures Fits(capacity, s, commands) <==> Struck(capacity, s, commands) == commands
    decreases |commands|
  {
    if commands != [] {
      var c, s' := commands[0], ShiftStep(capacity, s, commands[0]);
      StruckSession(capacity, s', commands[1..]);
      var rest := Struck(capacity, s', commands[1..]);
      assert commands == [c] + commands[1..];
      if !(c.Add? && |s| >= capacity) {
        assert ([c] + rest)[1..] == rest;
      }
    }
  }

  // ----- structs/task.c -----

  class ArrayBook {
    const list: array<Record>
    var count: int

    /** Slots at and above `count` are always zeroed. */
    ghost predicate Valid()
      reads this, list
    {
      && 0 <= count <= list.Length
      && forall i :: count <= i < list.Length ==> list[i] == BLANK
    }

    ghost function Contents(): seq<Record>
      requires Valid()
      reads this, list
    {
      list[..count]
    }

    constructor (capacity: nat)
      ensures Valid() && fresh(list) && list.Length == capacity && Contents() == []
    {
      list := new Record[capacity](_ => BLANK);
      count := 0;
    }

    method AddAbonent(r: Record) returns (full: bool)
      requires Valid()
      modifies this`count, list
      ensures Valid()
      ensures full <==> |old(Contents())| == list.Length
      ensures full ==> Contents() == old(Contents())
      ensures !full ==> Contents() == old(Contents()) + [r]
      ensures Contents() == ShiftStep(list.Length, old(Contents()), Add(r))
    {
      full := count >= list.Length;
      if !full {
        list[count] := r;
        count := count + 1;
      }
    }

    /** The inner loop of a deletion: every record behind the gap moves one slot to the left. */
    method ShiftLeft(gap: nat)
      requires Valid() && gap < count
      modifies list
      ensures forall k :: 0 <= k < list.Length && !(gap <= k < count - 1) ==> list[k] == old(list[k])
      ensures forall k :: gap <= k < count - 1 ==> list[k] == old(list[k + 1])
    {
      for j := gap to count - 1
        invariant forall k :: 0 <= k < list.Length && !(gap <= k < j) ==> list[k] == old(list[k])
        invariant forall k :: gap <= k < j ==> list[k] == old(list[k + 1])
      {
        list[j] := list[j + 1];
      }
    }

    method RemoveAt(gap: nat)
      requires Valid() && gap < count
      modifies this`count, list
      ensures Valid()
      ensures Contents() == old(Contents())[..gap] + old(Contents())[gap + 1..]
    {
      ShiftLeft(gap);
      list[count - 1] := BLANK;
      count := count - 1;
    }

    method DeleteAbonent(name: string) returns (found: bool)
      requires Valid()
      modifies this`count, list
      ensures Valid()
      ensures found <==> exists k :: 0 <= k < |old(Contents())| && old(Contents())[k].name == name
      ensures !found ==> Contents() == old(Contents())
      ensures found ==> exists i ::
                (&& 0 <= i < |old(Contents())| && old(Contents())[i].name == name
                 && (forall k :: 0 <= k < i ==> old(Contents())[k].name != name)
                 && Contents() == old(Contents())[..i] + old(Contents())[i + 1..])
      ensures Contents() == DeleteShift(old(Contents()), name)
    {
      ghost var was := Contents();
      for i := 0 to count
        invariant Valid() && Contents() == was
        invariant forall k :: 0 <= k < i ==> was[k].name != name
      {
        if list[i].name == name {
          FirstIs(was, name, i);
          assert was[i].name == name;
          RemoveAt(i);
          return true;
        }
      }
      FirstIs(was, name, count);
      return false;
    }

    method SearchAbonent(name: string) returns (printed: seq<Record>)
      requires Valid()
      ensures printed == Matching(Contents(), name)
    {
      printed := [];
      for i := 0 to count
        invariant printed == Matching(list[..i], name)
      {
        assert list[..i + 1][..i] == list[..i];
        if list[i].name == name {
          printed := printed + [list[i]];
        }
      }
    }

    method PrintAbonents() returns (printed: seq<Record>)
      requires Valid()
      ensures printed == Contents()
    {
      printed := [];
      for i := 0 to count
        invariant printed == list[..i]
      {
        printed := printed + [list[i]];
      }
    }

    /** One round of the menu loop. */
    method Choose(c: Command) returns (printed: seq<Record>)
      requires Valid()
      modifies this`count, list
      ensures Valid()
      ensures Contents() == ShiftStep(list.Length, old(Contents()), c)
      ensures printed == Printed(old(Contents()), c)
      ensures c.Search? || c.PrintAll? || c.Invalid? ==> Contents() == old(Contents())
      ensures c.PrintAll? ==> printed == old(Contents())
      ensures c.Search? ==> printed == Matching(old(Contents()), c.name)
      ensures c.Add? || c.Delete? || c.Invalid? ==> printed == []
    {
      printed := [];
      match c {
        case Add(r) => var _ := AddAbonent(r);
        case Delete(name) => var _ := DeleteAbonent(name);
        case Search(name) => printed := SearchAbonent(name);
        case PrintAll => printed := PrintAbonents();
        case Invalid =>
      }
    }

    /** The menu loop of `main`, with what every choice prints. */
    method Session(commands: seq<Command>) returns (output: seq<seq<Record>>)
      requires Valid()
      modifies this`count, list
      ensures Valid()
      ensures Contents() == ShiftRun(list.Length, old(Contents()), commands)
      ensures output == ShiftOutput(list.Length, old(Contents()), commands)
    {
      output := [];
      for i := 0 to |commands|
        invariant Valid()
        invariant ShiftRun(list.Length, Contents(), commands[i..]) ==
                  ShiftRun(list.Length, old(Contents()), commands)
        invariant output + ShiftOutput(list.Length, Contents(), commands[i..]) ==
                  ShiftOutput(list.Length, old(Contents()), commands)
      {
        ShiftUnfolds(list.Length, Contents(), commands, i);
        var printed := Choose(commands[i]);
        output := output + [printed];
      }
    }
  }

  // ----- dynamic/task.c -----

  /** `realloc`: the common prefix is kept, the rest is unspecified. */
  method Realloc(list: array<Record>, size: nat) returns (r: array<Record>)
    ensures fresh(r) && r.Length == size
    ensures forall i :: 0 <= i < size && i < list.Length ==> r[i] == list[i]
  {
    r := new Record[size](_ => BLANK);
    for i := 0 to if size < list.Length then size else list.Length
      invariant forall k :: 0 <= k < i ==> r[k] == list[k]
    {
      r[i] := list[i];
    }
  }

  class DynamicBook {
    var list: array<Record>
    var count: int

    ghost predicate Valid()
      reads this
    {
      count == list.Length
    }

    ghost function Contents(): seq<Record>
      reads this, list
    {
      list[..]
    }

    constructor ()
      ensures Valid() && fresh(list) && Contents() == []
    {
      list := new Record[0];
      count := 0;
    }

    method AddAbonent(r: Record)
      requires Valid()
      modifies this
      ensures Valid() && fresh(list)
      ensures Contents() == old(Contents()) + [r]
    {
      list := Realloc(list, count + 1);
      list[count] := r;
      count := count + 1;
    }

    method DeleteAbonent(name: string) returns (found: bool)
      requires Valid()
      modifies this, list
      ensures Valid() && (list == old(list) || fresh(list))
      ensures found <==> exists k :: 0 <= k < |old(Contents())| && old(Contents())[k].name == name
      ensures !found ==> Contents() == old(Contents())
      ensures found ==> exists i ::
                (&& 0 <= i < |old(Contents())| && old(Contents())[i].name == name
                 && (forall k :: 0 <= k < i ==> old(Contents())[k].name != name)
                 && Contents() == old(Contents())[i := old(Contents())[|old(Contents())| - 1]][..|old(Contents())| - 1])
      ensures Contents() == DeleteSwap(old(Contents()), name)
    {
      ghost var was := Contents();
      for i := 0 to count
        invariant Valid() && list == old(list) && Contents() == was
        invariant forall k :: 0 <= k < i ==> was[k].name != name
      {
        if list[i].name == name {
          FirstIs(was, name, i);
          list[i] := list[count - 1];
          assert list[..] == was[i := was[|was| - 1]];
          list := Realloc(list, count - 1);
          count := count - 1;
          return true;
        }
      }
      FirstIs(was, name, count);
      return false;
    }

    method SearchAbonent(name: string) returns (printed: seq<Record>)
      requires Valid()
      ensures printed == Matching(Contents(), name)
    {
      printed := [];
      for i := 0 to count
        invariant printed == Matching(list[..i], name)
      {
        assert list[..i + 1][..i] == list[..i];
        if list[i].name == name {
          printed := printed + [list[i]];
        }
      }
      assert list[..count] == list[..];
    }

    method PrintAbonents() returns (printed: seq<Record>)
      requires Valid()
      ensures printed == Contents()
    {
      printed := [];
      for i := 0 to count
        invariant printed == list[..i]
      {
        printed := printed + [list[i]];
      }
    }

    method Choose(c: Command) returns (printed: seq<Record>)
      requires Valid()
      modifies this, list
      ensures Valid() && (list == old(list) || fresh(list))
      ensures Contents() == SwapStep(old(Contents()), c)
      ensures printed == Printed(old(Contents()), c)
      ensures c.Search? || c.PrintAll? || c.Invalid? ==> Contents() == old(Contents())
      ensures c.PrintAll? ==> printed == old(Contents())
      ensures c.Search? ==> printed == Matching(old(Contents()), c.name)
      ensures c.Add? || c.Delete? || c.Invalid? ==> printed == []
    {
      printed := [];
      match c {
        case Add(r) => AddAbonent(r);
        case Delete(name) => var _ := DeleteAbonent(name);
        case Search(name) => printed := SearchAbonent(name);
        case PrintAll => printed := PrintAbonents();
        case Invalid =>
      }
    }

    method Session(commands: seq<Command>) returns (output: seq<seq<Record>>)
      requires Valid()
      modifies this, list
      ensures Valid()
      ensures Contents() == SwapRun(old(Contents()), commands)
      ensures output == SwapOutput(old(Contents()), commands)
    {
      output := [];
      for i := 0 to |commands|
        invariant Valid() && (list == old(list) || fresh(list))
        invariant SwapRun(Contents(), commands[i..]) == SwapRun(old(Contents()), commands)
        invariant output + SwapOutput(Contents(), commands[i..]) == SwapOutput(old(Contents()), commands)
      {
        SwapUnfolds(Contents(), commands, i);
        var printed := Choose(commands[i]);
        output := output + [printed];
      }
    }
  }

  // ----- What a deletion removes -----

  lemma WithoutOne<T>(s: seq<T>, i: nat)
    requires i < |s|
    ensures multiset(s[..i] + s[i + 1..]) == multiset(s) - multiset{s[i]}
  {
    assert s == s[..i] + [s[i]] + s[i + 1..];
  }

  lemma AppendedAndOne<T>(front: seq<T>, x: T, back: seq<T>)
    ensures multiset(front + [x] + back) == multiset(front) + multiset{x} + multiset(back)
  {
  }

  lemma LastMovedIn<T>(s: seq<T>, i: nat)
    requires i < |s|
    ensures multiset(s[i := s[|s| - 1]][..|s| - 1]) == multiset(s) - multiset{s[i]}
  {
    var last := |s| - 1;
    if i == last {
      assert s[i := s[last]][..last] == s[..last];
      WithoutOne(s, last);
      assert s[..last] + s[last + 1..] == s[..last];
    } else {
      var front, back := s[..i], s[i + 1..last];
      assert s[i := s[last]][..last] == front + [s[last]] + back;
      assert s == front + [s[i]] + (back + [s[last]]);
      AppendedAndOne(front, s[last], back);
      AppendedAndOne(front, s[i], back + [s[last]]);
    }
  }

  lemma ShiftRemoves(s: seq<Record>, name: string)
    requires First(s, name) < |s|
    ensures multiset(DeleteShift(s, name)) == multiset(s) - multiset{s[First(s, name)]}
  {
    var i := First(s, name);
    assert DeleteShift(s, name) == s[..i] + s[i + 1..];
    WithoutOne(s, i);
  }

  lemma SwapRemoves(s: seq<Record>, name: string)
    requires First(s, name) < |s|
    ensures multiset(DeleteSwap(s, name)) == multiset(s) - multiset{s[First(s, name)]}
  {
    LastMovedIn(s, First(s, name));
  }

  function Names(s: seq<Record>): (r: seq<string>)
    ensures |r| == |s| && forall i :: 0 <= i < |s| ==> r[i] == s[i].name
  {
    seq(|s|, i requires 0 <= i < |s| => s[i].name)
  }

  /** The names of two books are the same, with multiplicity. */
  ghost predicate SameNames(s: seq<Record>, t: seq<Record>) {
    multiset(Names(s)) == multiset(Names(t))
  }

  lemma NamesAfterShift(s: seq<Record>, name: string)
    ensures multiset(Names(DeleteShift(s, name))) == multiset(Names(s)) - multiset{name}
  {
    var i := First(s, name);
    if i < |s| {
      WithoutOne(Names(s), i);
      assert Names(DeleteShift(s, name)) == Names(s)[..i] + Names(s)[i + 1..];
    } else {
      assert name !in Names(s);
    }
  }

  lemma NamesAfterSwap(s: seq<Record>, name: string)
    ensures multiset(Names(DeleteSwap(s, name))) == multiset(Names(s)) - multiset{name}
  {
    var i := First(s, name);
    if i < |s| {
      LastMovedIn(Names(s), i);
      assert Names(DeleteSwap(s, name)) == Names(s)[i := Names(s)[|s| - 1]][..|s| - 1];
    } else {
      assert name !in Names(s);
    }
  }

  lemma SameLength(s: seq<Record>, t: seq<Record>)
    requires SameNames(s, t)
    ensures |s| == |t|
  {
    assert |multiset(Names(s))| == |s| && |multiset(Names(t))| == |t|;
  }

  // ----- The two books over whole runs -----

  /** Whatever is added and deleted, duplicates included, the two books hold equally many records
      under each name. */
  lemma {:induction false} BooksAgreeOnNames(capacity: nat, s: seq<Record>, t: seq<Record>, commands: seq<Command>)
    requires SameNames(s, t) && Fits(capacity, s, commands)
    ensures SameNames(ShiftRun(capacity, s, commands), SwapRun(t, commands))
    ensures |ShiftRun(capacity, s, commands)| == |SwapRun(t, commands)|
    decreases |commands|
  {
    if commands == [] {
      SameLength(s, t);
    } else {
      match commands[0] {
        case Add(r) =>
          assert Names(s + [r]) == Names(s) + [r.name] && Names(t + [r]) == Names(t) + [r.name];
        case Delete(name) =>
          NamesAfterShift(s, name);
          NamesAfterSwap(t, name);
        case _ =>
      }
      BooksAgreeOnNames(capacity, ShiftStep(capacity, s, commands[0]), SwapStep(t, commands[0]), commands[1..]);
    }
  }

  lemma SameMembers(s: seq<Record>, t: seq<Record>)
    requires multiset(s) == multiset(t)
    ensures |s| == |t|
    ensures forall x :: x in s <==> x in t
  {
    assert |multiset(s)| == |s| && |multiset(t)| == |t|;
    forall x ensures x in s <==> x in t {
      assert x in s <==> x in multiset(s);
      assert x in t <==> x in multiset(t);
    }
  }

  lemma RemovalsAgreeExactly<T>(m: multiset<T>, x: T, y: T)
    requires x in m && y in m
    ensures m - multiset{x} == m - multiset{y} <==> x == y
  {
    if x != y {
      assert (m - multiset{x})[x] == m[x] - 1 && (m - multiset{y})[x] == m[x];
    }
  }

  /** When do two books with the same records still have the same records after deleting a name?
      Exactly when the name is absent, or the first record found under it is the same in both. */
  lemma DeletionsAgreeExactly(s: seq<Record>, t: seq<Record>, name: string)
    requires multiset(s) == multiset(t)
    ensures First(s, name) == |s| <==> First(t, name) == |t|
    ensures multiset(DeleteShift(s, name)) == multiset(DeleteSwap(t, name))
            <==> First(s, name) == |s| || s[First(s, name)] == t[First(t, name)]
  {
    SameMembers(s, t);
    var i, j := First(s, name), First(t, name);
    if i < |s| {
      assert s[i] in t;
      assert t[j] in s;
      ShiftRemoves(s, name);
      SwapRemoves(t, name);
      RemovalsAgreeExactly(multiset(s), s[i], t[j]);
    } else {
      assert forall k :: 0 <= k < |t| ==> t[k] in s;
    }
  }

  /** A deletion removes the same record from both books, or nothing. */
  ghost predicate SameMatch(s: seq<Record>, t: seq<Record>, c: Command) {
    c.Delete? ==> First(s, c.name) == |s|
                  || (First(t, c.name) < |t| && s[First(s, c.name)] == t[First(t, c.name)])
  }

  ghost predicate SameMatches(capacity: nat, s: seq<Record>, t: seq<Record>, commands: seq<Command>)
    decreases |commands|
  {
    commands == [] ||
    (SameMatch(s, t, commands[0])
     && SameMatches(capacity, ShiftStep(capacity, s, commands[0]), SwapStep(t, commands[0]), commands[1..]))
  }

  /** The books hold the same records at the start, after every command, and so at the end. */
  ghost predicate AgreeThroughout(capacity: nat, s: seq<Record>, t: seq<Record>, commands: seq<Command>) {
    forall k :: 0 <= k <= |commands| ==>
      multiset(ShiftRun(capacity, s, commands[..k])) == multiset(SwapRun(t, commands[..k]))
  }

  lemma StepAgreesExactly(capacity: nat, s: seq<Record>, t: seq<Record>, c: Command)
    requires multiset(s) == multiset(t) && (c.Add? ==> |s| < capacity)
    ensures multiset(ShiftStep(capacity, s, c)) == multiset(SwapStep(t, c)) <==> SameMatch(s, t, c)
  {
    if c.Delete? {
      DeletionsAgreeExactly(s, t, c.name);
    }
  }

  lemma PrefixOfRun(capacity: nat, s: seq<Record>, t: seq<Record>, commands: seq<Command>, k: nat)
    requires k < |commands|
    ensures ShiftRun(capacity, s, commands[..k + 1]) ==
            ShiftRun(capacity, ShiftStep(capacity, s, commands[0]), commands[1..][..k])
    ensures SwapRun(t, commands[..k + 1]) == SwapRun(SwapStep(t, commands[0]), commands[1..][..k])
  {
    assert commands[..k + 1][1..] == commands[1..][..k];
  }

  lemma AgreeThroughoutUnfolds(capacity: nat, s: seq<Record>, t: seq<Record>, commands: seq<Command>)
    requires commands != []
    ensures AgreeThroughout(capacity, s, t, commands) <==>
            && multiset(s) == multiset(t)
            && AgreeThroughout(capacity, ShiftStep(capacity, s, commands[0]), SwapStep(t, commands[0]), commands[1..])
  {
    assert ShiftRun(capacity, s, commands[..0]) == s && SwapRun(t, commands[..0]) == t;
    var s', t' := ShiftStep(capacity, s, commands[0]), SwapStep(t, commands[0]);
    if AgreeThroughout(capacity, s, t, commands) {
      forall k | 0 <= k <= |commands[1..]|
        ensures multiset(ShiftRun(capacity, s', commands[1..][..k])) == multiset(SwapRun(t', commands[1..][..k]))
      {
        PrefixOfRun(capacity, s, t, commands, k);
      }
    }
    if multiset(s) == multiset(t) && AgreeThroughout(capacity, s', t', commands[1..]) {
      forall k | 0 <= k <= |commands|
        ensures multiset(ShiftRun(capacity, s, commands[..k])) == multiset(SwapRun(t, commands[..k]))
      {
        if k > 0 {
          PrefixOfRun(capacity, s, t, commands, k - 1);
        }
      }
    }
  }

  /** Over whole runs within capacity the books agree after every command if and only if every
      deletion finds the same record first in both. */
  lemma {:induction false} RunsAgreeExactly(capacity: nat, s: seq<Record>, t: seq<Record>, commands: seq<Command>)
    requires multiset(s) == multiset(t) && Fits(capacity, s, commands)
    ensures AgreeThroughout(capacity, s, t, commands) <==> SameMatches(capacity, s, t, commands)
    decreases |commands|
  {
    if commands == [] {
      assert commands[..0] == [];
    } else {
      var s', t' := ShiftStep(capacity, s, commands[0]), SwapStep(t, commands[0]);
      StepAgreesExactly(capacity, s, t, commands[0]);
      AgreeThroughoutUnfolds(capacity, s, t, commands);
      if multiset(s') == multiset(t') {
        RunsAgreeExactly(capacity, s', t', commands[1..]);
      } else {
        assert ShiftRun(capacity, s', commands[1..][..0]) == s' && SwapRun(t', commands[1..][..0]) == t';
      }
    }
  }

  /** Command by command the same records are printed, in some order. */
  ghost predicate SameOutput(a: seq<seq<Record>>, b: seq<seq<Record>>) {
    |a| == |b| && forall k :: 0 <= k < |a| ==> multiset(a[k]) == multiset(b[k])
  }

  lemma {:induction false} AgreeingBooksPrintTheSame(
    capacity: nat, s: seq<Record>, t: seq<Record>, commands: seq<Command>)
    requires AgreeThroughout(capacity, s, t, commands)
    ensures SameOutput(ShiftOutput(capacity, s, commands), SwapOutput(t, commands))
    decreases |commands|
  {
    if commands != [] {
      AgreeThroughoutUnfolds(capacity, s, t, commands);
      AgreeingBooksPrintTheSame(
        capacity, ShiftStep(capacity, s, commands[0]), SwapStep(t, commands[0]), commands[1..]);
      if commands[0].Search? {
        SameSearch(s, t, commands[0].name);
      }
    }
  }

  /** A name determines the record stored under it. */
  ghost predicate Keyed(s: seq<Record>) {
    forall x, y :: x in s && y in s && x.name == y.name ==> x == y
  }

  /** No command adds a different record under a name already stored. Runs in which all stored
      names are distinct are a special case. */
  ghost predicate KeyedRun(capacity: nat, s: seq<Record>, commands: seq<Command>)
    decreases |commands|
  {
    commands == [] ||
    ((commands[0].Add? ==> forall x :: x in s && x.name == commands[0].r.name ==> x == commands[0].r)
     && KeyedRun(capacity, ShiftStep(capacity, s, commands[0]), commands[1..]))
  }

  /** All names ever added are distinct, and new to the book. */
  ghost predicate DistinctRun(s: seq<Record>, commands: seq<Command>) {
    && (forall i, j :: 0 <= i < j < |commands| && commands[i].Add? && commands[j].Add? ==>
          commands[i].r.name != commands[j].r.name)
    && (forall i, x :: 0 <= i < |commands| && commands[i].Add? && x in s ==> commands[i].r.name != x.name)
  }

  lemma {:induction false} DistinctRunsAreKeyed(capacity: nat, s: seq<Record>, commands: seq<Command>)
    requires DistinctRun(s, commands)
    ensures KeyedRun(capacity, s, commands)
    decreases |commands|
  {
    if commands != [] {
      var s' := ShiftStep(capacity, s, commands[0]);
      assert forall x :: x in s' ==> x in s || (commands[0].Add? && x == commands[0].r);
      forall i, j | 0 <= i < j < |commands[1..]| && commands[1..][i].Add? && commands[1..][j].Add?
        ensures commands[1..][i].r.name != commands[1..][j].r.name
      {
        assert commands[i + 1].Add? && commands[j + 1].Add?;
      }
      forall i, x | 0 <= i < |commands[1..]| && commands[1..][i].Add? && x in s'
        ensures commands[1..][i].r.name != x.name
      {
        assert commands[i + 1].Add?;
      }
      DistinctRunsAreKeyed(capacity, s', commands[1..]);
    }
  }

  lemma KeyedStep(capacity: nat, s: seq<Record>, t: seq<Record>, c: Command)
    requires multiset(s) == multiset(t) && Keyed(s)
    requires c.Add? ==> |s| < capacity && forall x :: x in s && x.name == c.r.name ==> x == c.r
    ensures SameMatch(s, t, c) && Keyed(ShiftStep(capacity, s, c))
  {
    SameMembers(s, t);
    if c.Delete? {
      DeletionsAgreeExactly(s, t, c.name);
      var i := First(s, c.name);
      if i < |s| {
        assert s[i] in s && t[First(t, c.name)] in s;
        assert forall x :: x in DeleteShift(s, c.name) ==> x in s;
      }
    }
  }

  lemma {:induction false} KeyedRunsMatch(capacity: nat, s: seq<Record>, t: seq<Record>, commands: seq<Command>)
    requires multiset(s) == multiset(t) && Keyed(s)
    requires Fits(capacity, s, commands) && KeyedRun(capacity, s, commands)
    ensures SameMatches(capacity, s, t, commands)
    decreases |commands|
  {
    if commands != [] {
      KeyedStep(capacity, s, t, commands[0]);
      StepAgreesExactly(capacity, s, t, commands[0]);
      KeyedRunsMatch(capacity, ShiftStep(capacity, s, commands[0]), SwapStep(t, commands[0]), commands[1..]);
    }
  }

  /** With names as keys the two books hold the same records after every command of every run, and
      every search and listing prints the same records from either. */
  lemma BooksAgreeOnRecords(capacity: nat, s: seq<Record>, t: seq<Record>, commands: seq<Command>)
    requires multiset(s) == multiset(t) && Keyed(s)
    requires Fits(capacity, s, commands) && KeyedRun(capacity, s, commands)
    ensures AgreeThroughout(capacity, s, t, commands)
    ensures multiset(ShiftRun(capacity, s, commands)) == multiset(SwapRun(t, commands))
    ensures SameOutput(ShiftOutput(capacity, s, commands), SwapOutput(t, commands))
  {
    KeyedRunsMatch(capacity, s, t, commands);
    RunsAgreeExactly(capacity, s, t, commands);
    AgreeingBooksPrintTheSame(capacity, s, t, commands);
    assert commands[..|commands|] == commands;
  }

  /** A search finds every copy of every record with the name, and nothing else. */
  lemma {:induction false} MatchingCounts(s: seq<Record>, name: string, x: Record)
    ensures multiset(Matching(s, name))[x] == if x.name == name then multiset(s)[x] else 0
  {
    if s != [] {
      var last := s[|s| - 1];
      MatchingCounts(s[..|s| - 1], name, x);
      assert s == s[..|s| - 1] + [last];
    }
  }

  lemma SameSearch(s: seq<Record>, t: seq<Record>, name: string)
    requires multiset(s) == multiset(t)
    ensures multiset(Matching(s, name)) == multiset(Matching(t, name))
  {
    forall x ensures multiset(Matching(s, name))[x] == multiset(Matching(t, name))[x] {
      MatchingCounts(s, name, x);
      MatchingCounts(t, name, x);
    }
  }

  /** Where the matching records stand. */
  function Positions(s: seq<Record>, name: string): seq<nat> {
    if s == [] then []
    else Positions(s[..|s| - 1], name) + if s[|s| - 1].name == name then [|s| - 1] else []
  }

  /** A search prints the records at exactly the matching positions, in increasing order. */
  lemma {:induction false} MatchingIsSelection(s: seq<Record>, name: string)
    ensures var ps := Positions(s, name);
            && |Matching(s, name)| == |ps|
            && (forall k :: 0 <= k < |ps| ==> ps[k] < |s| && s[ps[k]].name == name && Matching(s, name)[k] == s[ps[k]])
            && (forall k, l :: 0 <= k < l < |ps| ==> ps[k] < ps[l])
            && (forall i :: 0 <= i < |s| && s[i].name == name ==> i in ps)
  {
    if s != [] {
      MatchingIsSelection(s[..|s| - 1], name);
    }
  }

  /** A search prints the matching records in book order. */
  lemma {:induction false} MatchingKeepsOrder(s: seq<Record>, t: seq<Record>, name: string)
    ensures Matching(s + t, name) == Matching(s, name) + Matching(t, name)
  {
    if t == [] {
      assert s + t == s;
    } else {
      assert (s + t)[..|s + t| - 1] == s + t[..|t| - 1];
      MatchingKeepsOrder(s, t[..|t| - 1], name);
    }
  }

  /** With two different records under one name the books can part: started empty, with room for
      three records, this session leaves each book one `a`, but not the same one. */
  lemma DuplicatesCanDiffer(capacity: nat)
    requires capacity >= 3
    ensures var x, a, b := Record("x", "p", "1"), Record("a", "q", "2"), Record("a", "r", "3");
            var commands := [Add(x), Add(a), Add(b), Delete("x"), Delete("a")];
            && Fits(capacity, [], commands)
            && ShiftRun(capacity, [], commands) == [b] && SwapRun([], commands) == [a]
  {
    var x, a, b := Record("x", "p", "1"), Record("a", "q", "2"), Record("a", "r", "3");
    var c4 := [Delete("a")];
    var c3 := [Delete("x")] + c4;
    var c2 := [Add(b)] + c3;
    var c1 := [Add(a)] + c2;
    assert [Add(x), Add(a), Add(b), Delete("x"), Delete("a")] == [Add(x)] + c1;
    assert c4 == [Delete("a")] + [];
    var none: seq<Record> := [];
    assert none + [x] == [x] && [x] + [a] == [x, a] && [x, a] + [b] == [x, a, b];
    DeletionsPart(x, a, b);
    Unfold(capacity, [a, b], [b, a], Delete("a"), []);
    Unfold(capacity, [x, a, b], [x, a, b], Delete("x"), c4);
    Unfold(capacity, [x, a], [x, a], Add(b), c3);
    Unfold(capacity, [x], [x], Add(a), c2);
    Unfold(capacity, [], [], Add(x), c1);
  }

  lemma DeletionsPart(x: Record, a: Record, b: Record)
    requires x.name == "x" && a.name == b.name == "a"
    ensures DeleteShift([x, a, b], "x") == [a, b] && DeleteShift([a, b], "a") == [b]
    ensures DeleteSwap([x, a, b], "x") == [b, a] && DeleteSwap([b, a], "a") == [a]
  {
    FirstIs([x, a, b], "x", 0);
    FirstIs([a, b], "a", 0);
    FirstIs([b, a], "a", 0);
  }

  lemma Unfold(capacity: nat, s: seq<Record>, t: seq<Record>, c: Command, rest: seq<Command>)
    ensures ShiftRun(capacity, s, [c] + rest) == ShiftRun(capacity, ShiftStep(capacity, s, c), rest)
    ensures SwapRun(t, [c] + rest) == SwapRun(SwapStep(t, c), rest)
    ensures Fits(capacity, s, [c] + rest) <==>
            (c.Add? ==> |s| < capacity) && Fits(capacity, ShiftStep(capacity, s, c), rest)
  {
    assert ([c] + rest)[1..] == rest;
  }
}
