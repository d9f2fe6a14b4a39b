/**
 * The editor's global keyboard shortcut table and the keydown matcher that walks it.
 * Each entry's key string is split on '+'; a part naming a modifier requires that modifier's
 * flag on the input snapshot, any other part must equal the pressed key exactly. The first
 * entry whose parts all match fires and the walk stops; modifiers an entry does not name are
 * never looked at.
 */
module Shortcuts {
  import opened Wrappers

  /** The part of a keydown snapshot the matcher reads. */
  datatype InputSnapshot = InputSnapshot(key: string, shiftKey: bool, cmdKey: bool)

  /** What each handler of the table does, as the editor runs it. */
  datatype Action = EnterCreateFrame | EnterCreateRectangle | DeleteSelection | SelectAll | Redo | Undo

  datatype Shortcut = Shortcut(key: string, action: Action)

  /** The table in registration order. */
  const Table: seq<Shortcut> := [
    Shortcut("f", EnterCreateFrame),
    Shortcut("r", EnterCreateRectangle),
    Shortcut("Backspace", DeleteSelection),
    Shortcut("cmd+a", SelectAll),
    Shortcut("cmd+y", Redo),
    Shortcut("cmd+z", Undo)
  ]

  datatype Modifier = Shift | Cmd

  /** The modifier-name map: 'shift' names `shiftKey`, 'cmd' names `cmdKey`. */
  function ModifierOf(part: string): (m: Option<Modifier>)
    ensures m.Some? <==> part == "shift" || part == "cmd"
    ensures part == "shift" ==> m == Some(Shift)
    ensures part == "cmd" ==> m == Some(Cmd)
  {
    if part == "shift" then Some(Shift) else if part == "cmd" then Some(Cmd) else None
  }

  /** The snapshot flag a modifier names. */
  function Pressed(e: InputSnapshot, m: Modifier): bool
  {
    match m
    case Shift => e.shiftKey
    case Cmd => e.cmdKey
  }

  /** `s.split('+')`: the maximal '+'-free pieces between the separators, always at least one. */
  function Split(s: string): (parts: seq<string>)
    ensures |parts| >= 1
  {
    if s == [] then [""]
    else if s[0] == '+' then [""] + Split(s[1..])
    else
      var rest := Split(s[1..]);
      [[s[0]] + rest[0]] + rest[1..]
  }

  /** `parts.join('+')`, the inverse of `Split`. */
  function Join(parts: seq<string>): string
    requires |parts| >= 1
  {
    if |parts| == 1 then parts[0] else parts[0] + "+" + Join(parts[1..])
  }

  /** One part of an entry matches the snapshot. */
  predicate PartMatches(part: string, e: InputSnapshot)
  {
    match ModifierOf(part)
    case Some(m) => Pressed(e, m)
    case None => part == e.key
  }

  /** Every '+'-separated part of `key` matches the snapshot. */
  predicate EntryMatches(key: string, e: InputSnapshot)
  {
    var parts := Split(key);
    forall j :: 0 <= j < |parts| ==> PartMatches(parts[j], e)
  }

  /** The action of the first matching entry, if any. */
  function FirstMatch(table: seq<Shortcut>, e: InputSnapshot): Option<Action>
  {
    if table == [] then None
    else if EntryMatches(table[0].key, e) then Some(table[0].action)
    else FirstMatch(table[1..], e)
  }

  /** The keydown listener: at most one entry fires, the first one in table order whose every
      part matches; when none matches nothing fires. */
  method Dispatch(table: seq<Shortcut>, e: InputSnapshot) returns (fired: Option<Action>)
    ensures fired == FirstMatch(table, e)
    ensures fired.None? <==> forall i :: 0 <= i < |table| ==> !EntryMatches(table[i].key, e)
    ensures fired.Some? ==>
              exists i :: 0 <= i < |table| && table[i].action == fired.value && EntryMatches(table[i].key, e)
                          && forall k :: 0 <= k < i ==> !EntryMatches(table[k].key, e)
  {
    var code := e.key;
    fired := None;
    var i := 0;
    while i < |table|
      invariant 0 <= i <= |table|
      invariant fired == None
      invariant forall k :: 0 <= k < i ==> !EntryMatches(table[k].key, e)
      invariant FirstMatch(table, e) == FirstMatch(table[i..], e)
    {
      var arr := Split(table[i].key);
      var flag := true;
      var j := 0;
      while j < |arr|
        invariant 0 <= j <= |arr|
        invariant flag
        invariant forall k :: 0 <= k < j ==> PartMatches(arr[k], e)
      {
        var cur := arr[j];
        var m := ModifierOf(cur);
        if m.Some? {
          if !Pressed(e, m.value) {
            flag := false;
            break;
          }
        } else {
          if code != cur {
            flag := false;
            break;
          }
        }
        j := j + 1;
      }
      assert table[i..][0] == table[i] && table[i..][1..] == table[i + 1..];
      if flag {
        fired := Some(table[i].action);
        break;
      }
      i := i + 1;
    }
  }

  // ---------------------------------------------------------------------------------------
  // Lemmas

  /** Splitting and joining are inverse: no piece contains '+', and joining the pieces with
      '+' gives the key string back. */
  lemma {:induction false} SplitJoin(s: string)
    ensures forall j :: 0 <= j < |Split(s)| ==> '+' !in Split(s)[j]
    ensures Join(Split(s)) == s
  {
    if s == [] {
    } else if s[0] == '+' {
      SplitJoin(s[1..]);
      assert Split(s)[1..] == Split(s[1..]);
      assert s == "" + "+" + s[1..];
    } else {
      SplitJoin(s[1..]);
      var rest := Split(s[1..]);
      forall j | 0 <= j < |Split(s)| ensures '+' !in Split(s)[j] {
        if j > 0 { assert Split(s)[j] == rest[j]; }
      }
      if |rest| == 1 {
        assert Join(Split(s)) == [s[0]] + rest[0];
      } else {
        assert Split(s)[1..] == rest[1..];
        assert Join(rest) == rest[0] + "+" + Join(rest[1..]);
      }
    }
  }

  /** The other direction: '+'-free pieces survive a join followed by a split. */
  lemma {:induction false} JoinSplit(parts: seq<string>)
    requires |parts| >= 1
    requires forall j :: 0 <= j < |parts| ==> '+' !in parts[j]
    ensures Split(Join(parts)) == parts
    decreases |parts|, |parts[0]|
  {
    var p := parts[0];
    if |parts| == 1 {
      SplitPlain(p);
    } else if p == [] {
      JoinSplit(parts[1..]);
      assert Join(parts) == "+" + Join(parts[1..]);
      assert Join(parts)[1..] == Join(parts[1..]);
    } else {
      var shorter := [p[1..]] + parts[1..];
      assert '+' !in p[1..] by { assert forall c :: c in p[1..] ==> c in p; }
      JoinSplit(shorter);
      assert shorter[1..] == parts[1..];
      assert Join(parts) == [p[0]] + Join(shorter);
      assert Join(parts)[1..] == Join(shorter);
      assert [p[0]] + p[1..] == p;
    }
  }

  lemma {:induction false} SplitPlain(s: string)
    requires '+' !in s
    ensures Split(s) == [s]
  {
    if s != [] {
      assert '+' !in s[1..] by { assert forall c :: c in s[1..] ==> c in s; }
      SplitPlain(s[1..]);
      assert [s[0]] + s[1..] == s;
    }
  }

  /** Modifiers an entry does not name are never checked: pressing more modifiers never stops
      an entry from matching. */
  lemma ExtraModifiersIgnored(key: string, e: InputSnapshot, more: InputSnapshot)
    requires more.key == e.key
    requires e.shiftKey ==> more.shiftKey
    requires e.cmdKey ==> more.cmdKey
    requires EntryMatches(key, e)
    ensures EntryMatches(key, more)
  {
    var parts := Split(key);
    forall j | 0 <= j < |parts| ensures PartMatches(parts[j], more) {
      assert PartMatches(parts[j], e);
    }
  }

  /** A part naming a modifier rejects the entry when that modifier is not pressed. */
  lemma MissingModifierRejects(key: string, e: InputSnapshot, j: nat, m: Modifier)
    requires j < |Split(key)| && ModifierOf(Split(key)[j]) == Some(m)
    requires !Pressed(e, m)
    ensures !EntryMatches(key, e)
  {
    assert !PartMatches(Split(key)[j], e);
  }

  /** Plain parts compare with the pressed key exactly, so an entry with two different plain
      parts never matches any keydown. */
  lemma TwoPlainPartsNeverMatch(key: string, e: InputSnapshot, i: nat, j: nat)
    requires i < |Split(key)| && j < |Split(key)|
    requires ModifierOf(Split(key)[i]).None? && ModifierOf(Split(key)[j]).None?
    requires Split(key)[i] != Split(key)[j]
    ensures !EntryMatches(key, e)
  {
    var parts := Split(key);
    if PartMatches(parts[i], e) {
      assert parts[i] == e.key;
      assert !PartMatches(parts[j], e);
    }
  }

  /** What the registered table does, written as a decision on the snapshot alone. */
  function DefaultDecision(e: InputSnapshot): Option<Action>
  {
    if e.key == "f" then Some(EnterCreateFrame)
    else if e.key == "r" then Some(EnterCreateRectangle)
    else if e.key == "Backspace" then Some(DeleteSelection)
    else if !e.cmdKey then None
    else if e.key == "a" then Some(SelectAll)
    else if e.key == "y" then Some(Redo)
    else if e.key == "z" then Some(Undo)
    else None
  }

  /** The registered table behaves as `DefaultDecision`: 'f', 'r' and 'Backspace' fire whatever
      modifiers are held, 'a', 'y' and 'z' fire only with cmd held, nothing else fires. */
  lemma DefaultTableDecision(e: InputSnapshot)
    ensures FirstMatch(Table, e) == DefaultDecision(e)
  {
    TableTail(e);
    PlainEntry("f", e);
    PlainEntry("r", e);
    PlainEntry("Backspace", e);
    var t := Table;
    assert FirstMatch(t[2..], e) == if e.key == "Backspace" then Some(DeleteSelection) else FirstMatch(t[3..], e) by {
      assert t[2..][0] == Shortcut("Backspace", DeleteSelection);
      assert t[2..][1..] == t[3..];
    }
    assert FirstMatch(t[1..], e) == if e.key == "r" then Some(EnterCreateRectangle) else FirstMatch(t[2..], e) by {
      assert t[1..][0] == Shortcut("r", EnterCreateRectangle);
      assert t[1..][1..] == t[2..];
    }
    assert FirstMatch(t, e) == if e.key == "f" then Some(EnterCreateFrame) else FirstMatch(t[1..], e) by {
      assert t[0] == Shortcut("f", EnterCreateFrame);
    }
  }

  /** The three cmd entries at the end of the table. */
  lemma TableTail(e: InputSnapshot)
    ensures FirstMatch(Table[3..], e) == if !e.cmdKey then None else
      if e.key == "a" then Some(SelectAll) else if e.key == "y" then Some(Redo)
      else if e.key == "z" then Some(Undo) else None
  {
    CmdEntry("cmd+a", "a", e);
    CmdEntry("cmd+y", "y", e);
    CmdEntry("cmd+z", "z", e);
    var t := Table[3..];
    assert t == [Shortcut("cmd+a", SelectAll), Shortcut("cmd+y", Redo), Shortcut("cmd+z", Undo)];
    assert FirstMatch(t[2..], e) == if e.cmdKey && e.key == "z" then Some(Undo) else None by {
      assert t[2..][1..] == [];
    }
    assert FirstMatch(t[1..], e) == if e.cmdKey && e.key == "y" then Some(Redo) else FirstMatch(t[2..], e) by {
      assert t[1..][1..] == t[2..];
    }
    assert FirstMatch(t, e) == if e.cmdKey && e.key == "a" then Some(SelectAll) else FirstMatch(t[1..], e);
  }

  /** An entry made of one plain key matches exactly that key, whatever the modifiers. */
  lemma PlainEntry(k: string, e: InputSnapshot)
    requires '+' !in k && k != "shift" && k != "cmd"
    ensures EntryMatches(k, e) <==> e.key == k
  {
    SplitPlain(k);
    assert Split(k)[0] == k;
    assert PartMatches(k, e) <==> e.key == k;
  }

  /** An entry 'cmd+k' matches exactly key `k` pressed with cmd. */
  lemma CmdEntry(key: string, k: string, e: InputSnapshot)
    requires '+' !in k && k != "shift" && k != "cmd"
    requires key == "cmd+" + k
    ensures EntryMatches(key, e) <==> e.cmdKey && e.key == k
  {
    JoinSplit(["cmd", k]);
    assert Join(["cmd", k]) == key;
    assert Split(key) == ["cmd", k];
    var parts := Split(key);
    assert PartMatches(parts[0], e) == e.cmdKey;
  }

  /** Consequences named in the table's behaviour: case matters, extra modifiers do not. */
  lemma DefaultTableExamples()
    ensures FirstMatch(Table, InputSnapshot("R", false, false)) == None
    ensures FirstMatch(Table, InputSnapshot("r", false, true)) == Some(EnterCreateRectangle)
    ensures FirstMatch(Table, InputSnapshot("a", true, true)) == Some(SelectAll)
    ensures FirstMatch(Table, InputSnapshot("z", false, false)) == None
    ensures FirstMatch(Table, InputSnapshot("z", false, true)) == Some(Undo)
  {
    DefaultTableDecision(InputSnapshot("R", false, false));
    DefaultTableDecision(InputSnapshot("r", false, true));
    DefaultTableDecision(InputSnapshot("a", true, true));
    DefaultTableDecision(InputSnapshot("z", false, false));
    DefaultTableDecision(InputSnapshot("z", false, true));
  }
}
