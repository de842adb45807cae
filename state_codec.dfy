/** The persistence gateway: conversion between the store and the JSON value that
    `_save_state` writes and `_load_state` reads. The file itself and the `json` library stay
    outside; a JSON value is a small datatype, and a decoded JSON object keeps its members in
    file order as a sequence. */
module StateCodec {
  import opened Core
  import opened Text
  import opened DateKeys

  /** A decoded JSON value (numbers are integers in this model). */
  datatype Json =
    | JNull
    | JBool(b: bool)
    | JInt(i: int)
    | JStr(s: string)
    | JArr(items: seq<Json>)
    | JObj(fields: seq<(string, Json)>)

  /** `repr()` of a decoded value, in the shape Python prints it inside a container. */
  function PyRepr(j: Json): string
    decreases j
  {
    match j
    case JNull => "None"
    case JBool(b) => if b then "True" else "False"
    case JInt(i) => IntToString(i)
    case JStr(s) => StrRepr(s)
    case JArr(items) =>
      "[" + Join(seq(|items|, n requires 0 <= n < |items| => PyRepr(items[n])), ", ") + "]"
    case JObj(fields) =>
      "{" + Join(seq(|fields|, n requires 0 <= n < |fields| =>
                   assert fields[n].1 < fields[n];
                   StrRepr(fields[n].0) + ": " + PyRepr(fields[n].1)), ", ") + "}"
  }

  /** The quote `repr()` puts around a string: a double quote when the text holds a single
      quote and no double quote, a single quote otherwise. */
  function ReprQuote(s: string): (q: char)
    ensures q == '"' <==> '\'' in s && '"' !in s
    ensures q == '"' || q == '\''
  {
    if '\'' in s && '"' !in s then '"' else '\''
  }

  /** Characters `repr()` writes as they are: everything outside the C0 and C1 controls, DEL,
      the no-break space and the soft hyphen, other than the backslash and the chosen quote. */
  predicate PrintsAsIs(c: char, quote: char) {
    c != quote && c != '\\' && ' ' <= c && !(0x7f <= c as int <= 0xa0) && c as int != 0xad
  }

  function HexDigit(d: nat): (c: char)
    requires d < 16
  {
    if d < 10 then ('0' as int + d) as char else ('a' as int + d - 10) as char
  }

  /** One character inside `repr()`'s quotes. */
  function ReprChar(c: char, quote: char): (r: string)
    ensures PrintsAsIs(c, quote) <==> r == [c]
    ensures !PrintsAsIs(c, quote) ==> |r| >= 2 && r[0] == '\\'
  {
    if c == quote || c == '\\' then ['\\', c]
    else if c == '\t' then "\\t"
    else if c == '\n' then "\\n"
    else if c == '\r' then "\\r"
    else if c < ' ' || 0x7f <= c as int <= 0xa0 || c as int == 0xad then
      "\\x" + [HexDigit(c as int / 16), HexDigit(c as int % 16)]
    else [c]
  }

  function ReprChars(s: string, quote: char): string {
    if s == [] then [] else ReprChar(s[0], quote) + ReprChars(s[1..], quote)
  }

  /** `repr()` of a string: the chosen quote around the escaped characters. */
  function StrRepr(s: string): (r: string)
    ensures |r| >= 2 && r[0] == r[|r| - 1] == ReprQuote(s)
  {
    var q := ReprQuote(s);
    [q] + ReprChars(s, q) + [q]
  }

  /** A text with nothing to escape is printed as it is between the chosen quotes. */
  lemma {:induction false} PlainReprChars(s: string, quote: char)
    requires forall i :: 0 <= i < |s| ==> PrintsAsIs(s[i], quote)
    ensures ReprChars(s, quote) == s
  {
    if s != [] {
      PlainReprChars(s[1..], quote);
      assert [s[0]] + s[1..] == s;
    }
  }

  /** `str()` of a decoded value. */
  function PyStr(j: Json): (r: string)
    ensures j.JStr? ==> r == j.s
  {
    if j.JStr? then j.s else PyRepr(j)
  }

  /** `dict.get(key)` on a decoded object: the last member with that name wins. */
  function Lookup(fields: seq<(string, Json)>, key: string): (r: Option<Json>)
    ensures r.Some? ==> exists n :: 0 <= n < |fields| && fields[n] == (key, r.value)
    ensures r.None? ==> forall n :: 0 <= n < |fields| ==> fields[n].0 != key
  {
    if fields == [] then None
    else if fields[|fields| - 1].0 == key then Some(fields[|fields| - 1].1)
    else Lookup(fields[..|fields| - 1], key)
  }

  // ----- the dict `json.load` builds from an object -----

  /** The position of the member named `key`, or -1 when there is none. */
  function NameIndex(d: seq<(string, Json)>, key: string): (i: int)
    ensures -1 <= i < |d|
    ensures i >= 0 ==> d[i].0 == key
    ensures i == -1 <==> forall n :: 0 <= n < |d| ==> d[n].0 != key
  {
    if d == [] then -1
    else if d[0].0 == key then 0
    else
      var j := NameIndex(d[1..], key);
      if j < 0 then -1 else j + 1
  }

  /** The members of the dict `json.load` builds from an object's members in file order: a
      name seen before keeps its place and takes the new value, a new name is added at the
      end. */
  function Members(fields: seq<(string, Json)>): (d: seq<(string, Json)>)
    ensures |d| <= |fields|
  {
    if fields == [] then []
    else
      var d := Members(fields[..|fields| - 1]);
      var (key, value) := fields[|fields| - 1];
      var i := NameIndex(d, key);
      if i >= 0 then d[i := (key, value)] else d + [(key, value)]
  }

  predicate DistinctNames(d: seq<(string, Json)>) {
    forall i, j :: 0 <= i < j < |d| ==> d[i].0 != d[j].0
  }

  /** Every member of `d` holds the value the object gives last for its name. */
  predicate HoldsLastValues(fields: seq<(string, Json)>, d: seq<(string, Json)>) {
    forall i :: 0 <= i < |d| ==> Lookup(fields, d[i].0) == Some(d[i].1)
  }

  predicate HasName(d: seq<(string, Json)>, name: string) {
    exists i :: 0 <= i < |d| && d[i].0 == name
  }

  /** Every name of the object is a name of `d`. */
  predicate CoversNames(fields: seq<(string, Json)>, d: seq<(string, Json)>) {
    forall n :: 0 <= n < |fields| ==> HasName(d, fields[n].0)
  }

  /** `a` occurs in `fields` before the first occurrence of `b`. */
  predicate FirstBefore(fields: seq<(string, Json)>, a: string, b: string) {
    exists p :: 0 <= p < |fields| && fields[p].0 == a && forall q :: 0 <= q <= p ==> fields[q].0 != b
  }

  /** The names of `d` are in the order in which they first appear in the object. */
  predicate InFirstOrder(fields: seq<(string, Json)>, d: seq<(string, Json)>) {
    forall i, j :: 0 <= i < j < |d| ==> FirstBefore(fields, d[i].0, d[j].0)
  }

  /** The dict has one member per name of the object, each holding the last value given for
      that name, in the order in which the names first appear. */
  lemma MembersSpec(fields: seq<(string, Json)>)
    ensures DistinctNames(Members(fields))
    ensures HoldsLastValues(fields, Members(fields))
    ensures CoversNames(fields, Members(fields))
    ensures InFirstOrder(fields, Members(fields))
  {
    MembersDistinct(fields);
    MembersValues(fields);
    MembersCover(fields);
    MembersOrder(fields);
  }

  lemma {:induction false} MembersDistinct(fields: seq<(string, Json)>)
    ensures DistinctNames(Members(fields))
  {
    if fields != [] {
      MembersDistinct(fields[..|fields| - 1]);
    }
  }

  lemma {:induction false} MembersValues(fields: seq<(string, Json)>)
    ensures HoldsLastValues(fields, Members(fields))
  {
    if fields != [] {
      var prefix := fields[..|fields| - 1];
      var (key, value) := fields[|fields| - 1];
      MembersValues(prefix);
      MembersDistinct(prefix);
      var d0 := Members(prefix);
      var d := Members(fields);
      var k := NameIndex(d0, key);
      forall i | 0 <= i < |d| ensures Lookup(fields, d[i].0) == Some(d[i].1) {
        if (k >= 0 && i == k) || (k < 0 && i == |d0|) {
          assert d[i] == (key, value);
        } else {
          assert i < |d0| && d[i] == d0[i];
          assert d0[i].0 != key;
          assert Lookup(prefix, d0[i].0) == Some(d0[i].1);
        }
      }
    }
  }

  lemma {:induction false} MembersCover(fields: seq<(string, Json)>)
    ensures CoversNames(fields, Members(fields))
  {
    if fields != [] {
      var prefix := fields[..|fields| - 1];
      var key := fields[|fields| - 1].0;
      MembersCover(prefix);
      var d0 := Members(prefix);
      var d := Members(fields);
      assert forall i :: 0 <= i < |d0| ==> d[i].0 == d0[i].0;
      forall n | 0 <= n < |fields| ensures HasName(d, fields[n].0) {
        if n < |prefix| {
          assert prefix[n] == fields[n];
          assert HasName(d0, prefix[n].0);
          var i :| 0 <= i < |d0| && d0[i].0 == prefix[n].0;
          assert d[i].0 == fields[n].0;
        } else {
          var i := NameIndex(d0, key);
          if i >= 0 {
            assert d[i].0 == key;
          } else {
            assert d[|d| - 1].0 == key;
          }
        }
      }
    }
  }

  lemma {:induction false} MembersOrder(fields: seq<(string, Json)>)
    ensures InFirstOrder(fields, Members(fields))
  {
    if fields != [] {
      var prefix := fields[..|fields| - 1];
      var key := fields[|fields| - 1].0;
      MembersOrder(prefix);
      var d0 := Members(prefix);
      var d := Members(fields);
      assert forall i :: 0 <= i < |d0| ==> d[i].0 == d0[i].0;
      forall i, j | 0 <= i < j < |d| ensures FirstBefore(fields, d[i].0, d[j].0) {
        if j < |d0| {
          assert FirstBefore(prefix, d0[i].0, d0[j].0);
          var p :| 0 <= p < |prefix| && prefix[p].0 == d0[i].0 && forall q :: 0 <= q <= p ==> prefix[q].0 != d0[j].0;
          assert fields[p] == prefix[p];
          assert forall q :: 0 <= q <= p ==> fields[q] == prefix[q];
        } else {
          NewNameIsNew(prefix, key);
          MembersValues(prefix);
          assert Lookup(prefix, d0[i].0) == Some(d0[i].1);
          var p :| 0 <= p < |prefix| && prefix[p] == (d0[i].0, d0[i].1);
          assert fields[p] == prefix[p];
          assert forall q :: 0 <= q <= p ==> fields[q] == prefix[q];
        }
      }
    }
  }

  /** A name the dict does not have yet does not occur among the members read so far. */
  lemma NewNameIsNew(prefix: seq<(string, Json)>, key: string)
    requires NameIndex(Members(prefix), key) < 0
    ensures forall q :: 0 <= q < |prefix| ==> prefix[q].0 != key
  {
    MembersCover(prefix);
    forall q | 0 <= q < |prefix| ensures prefix[q].0 != key {
      assert HasName(Members(prefix), prefix[q].0);
    }
  }

  /** An object whose names are all different is read as it is written. */
  lemma {:induction false} MembersOfDistinct(fields: seq<(string, Json)>)
    requires DistinctNames(fields)
    ensures Members(fields) == fields
  {
    if fields != [] {
      var prefix := fields[..|fields| - 1];
      MembersOfDistinct(prefix);
      assert NameIndex(prefix, fields[|fields| - 1].0) < 0;
      assert prefix + [fields[|fields| - 1]] == fields;
    }
  }

  /** One entry of a saved day list as `_load_state` normalises it: a list gives its first two
      items as strings, "" by default; a bare string is an order number without a company; any
      other value is dropped. */
  function EntryToAssignment(entry: Json): (r: Option<Assignment>)
    ensures entry.JStr? ==> r == Some(Assignment(entry.s, ""))
    ensures entry.JArr? ==> r.Some?
    ensures r.Some? <==> entry.JStr? || entry.JArr?
  {
    match entry
    case JArr(items) =>
      Some(Assignment(if |items| > 0 then PyStr(items[0]) else "",
                      if |items| > 1 then PyStr(items[1]) else ""))
    case JStr(s) => Some(Assignment(s, ""))
    case _ => None
  }

  /** The normalised list of one day, in file order. */
  function NormalizeEntries(entries: seq<Json>): (r: seq<Assignment>)
    ensures |r| <= |entries|
  {
    if entries == [] then []
    else
      var prefix := NormalizeEntries(entries[..|entries| - 1]);
      match EntryToAssignment(entries[|entries| - 1])
      case Some(a) => prefix + [a]
      case None => prefix
  }

  /** A saved day list normalises to nothing exactly when none of its entries is a list or a
      string. */
  lemma {:induction false} NormalizeEntriesEmpty(entries: seq<Json>)
    ensures NormalizeEntries(entries) == [] <==>
      forall n :: 0 <= n < |entries| ==> EntryToAssignment(entries[n]).None?
  {
    if entries != [] {
      var prefix := entries[..|entries| - 1];
      NormalizeEntriesEmpty(prefix);
      assert forall n :: 0 <= n < |prefix| ==> prefix[n] == entries[n];
    }
  }

  /** One member of the saved `notes` object: a member whose name is not a date key or whose
      value is not a string is skipped. */
  function AddNote(m: Notes, key: string, value: Json): (r: Notes)
  {
    var d := Deserialize(key);
    if d.Some? && value.JStr? then m[d.value := value.s] else m
  }

  /** The notes loop of `_load_state`: members are read in file order and a later member for
      the same day wins. */
  function LoadNotes(fields: seq<(string, Json)>): (r: Notes)
    ensures fields == [] ==> r == map[]
  {
    if fields == [] then map[]
    else
      var (key, value) := fields[|fields| - 1];
      AddNote(LoadNotes(fields[..|fields| - 1]), key, value)
  }

  /** One member of the saved `assignments` object: the day is kept only when its value is a
      list whose normalised form is not empty. */
  function AddDay(m: Assignments, key: string, value: Json): (r: Assignments)
    ensures NoEmptyDays(m) ==> NoEmptyDays(r)
  {
    var d := Deserialize(key);
    if d.Some? && value.JArr? then
      var list := NormalizeEntries(value.items);
      if list != [] then m[d.value := list] else m
    else m
  }

  /** The assignments loop of `_load_state`; the loaded map has no empty day. */
  function LoadAssignments(fields: seq<(string, Json)>): (r: Assignments)
    ensures NoEmptyDays(r)
    ensures fields == [] ==> r == map[]
  {
    if fields == [] then map[]
    else
      var (key, value) := fields[|fields| - 1];
      AddDay(LoadAssignments(fields[..|fields| - 1]), key, value)
  }

  /** Every loaded note comes from a string member whose name reads back as its day. */
  lemma {:induction false} LoadedNotesComeFromFile(fields: seq<(string, Json)>, k: DateKey)
    requires k in LoadNotes(fields)
    ensures exists n :: 0 <= n < |fields| && Deserialize(fields[n].0) == Some(k)
                                          && fields[n].1 == JStr(LoadNotes(fields)[k])
  {
    var n := NoteSource(fields, k);
  }

  /** Conversely, a string member whose name reads back as a day is loaded as that day's note
      unless a later string member names the same day: the last one wins. */
  lemma {:induction false} LoadNotesLastWins(fields: seq<(string, Json)>, n: int)
    requires 0 <= n < |fields| && Deserialize(fields[n].0).Some? && fields[n].1.JStr?
    requires forall m :: n < m < |fields| ==> !(Deserialize(fields[m].0) == Deserialize(fields[n].0) && fields[m].1.JStr?)
    ensures Deserialize(fields[n].0).value in LoadNotes(fields)
    ensures LoadNotes(fields)[Deserialize(fields[n].0).value] == fields[n].1.s
  {
    var k := Deserialize(fields[n].0).value;
    var last := fields[|fields| - 1];
    var prefix := fields[..|fields| - 1];
    var before := LoadNotes(prefix);
    assert LoadNotes(fields) == AddNote(before, last.0, last.1);
    if n < |fields| - 1 {
      assert prefix[n] == fields[n];
      assert forall m :: n < m < |prefix| ==> prefix[m] == fields[m];
      LoadNotesLastWins(prefix, n);
      if Deserialize(last.0) != Some(k) {
        AddNoteChangesOneDay(before, last.0, last.1, k);
      } else {
        assert !last.1.JStr?;
      }
    }
  }

  /** The index of the member a loaded note comes from. */
  lemma {:induction false} NoteSource(fields: seq<(string, Json)>, k: DateKey) returns (n: nat)
    requires k in LoadNotes(fields)
    ensures n < |fields| && Deserialize(fields[n].0) == Some(k) && fields[n].1 == JStr(LoadNotes(fields)[k])
  {
    var last := fields[|fields| - 1];
    if Deserialize(last.0) == Some(k) && last.1.JStr? {
      n := |fields| - 1;
      NoteFromLast(fields, k);
    } else {
      NoteFromPrefix(fields, k);
      n := NoteSource(fields[..|fields| - 1], k);
      assert fields[n] == fields[..|fields| - 1][n];
    }
  }

  /** A note the last member sets is that member's text. */
  lemma NoteFromLast(fields: seq<(string, Json)>, k: DateKey)
    requires fields != [] && Deserialize(fields[|fields| - 1].0) == Some(k) && fields[|fields| - 1].1.JStr?
    ensures k in LoadNotes(fields) && fields[|fields| - 1].1 == JStr(LoadNotes(fields)[k])
  {
    var last := fields[|fields| - 1];
    assert LoadNotes(fields) == AddNote(LoadNotes(fields[..|fields| - 1]), last.0, last.1);
  }

  /** A note the last member does not set was loaded from the members before it. */
  lemma NoteFromPrefix(fields: seq<(string, Json)>, k: DateKey)
    requires k in LoadNotes(fields)
    requires !(Deserialize(fields[|fields| - 1].0) == Some(k) && fields[|fields| - 1].1.JStr?)
    ensures k in LoadNotes(fields[..|fields| - 1]) && LoadNotes(fields)[k] == LoadNotes(fields[..|fields| - 1])[k]
  {
    var last := fields[|fields| - 1];
    assert LoadNotes(fields) == AddNote(LoadNotes(fields[..|fields| - 1]), last.0, last.1);
  }

  /** A member changes at most the note of the one day its name reads as: that day gets the
      member's text when it is a string, and every other day keeps its note or its absence. */
  lemma AddNoteChangesOneDay(m: Notes, key: string, value: Json, k: DateKey)
    ensures var r := AddNote(m, key, value);
            Deserialize(key) != Some(k) || !value.JStr? ==> (k in r <==> k in m) && (k in m ==> r[k] == m[k])
    ensures var r := AddNote(m, key, value);
            Deserialize(key) == Some(k) && value.JStr? ==> k in r && r[k] == value.s
  {
  }

  lemma AddDayOther(m: Assignments, key: string, value: Json, k: DateKey)
    requires Deserialize(key) != Some(k)
    ensures var r := AddDay(m, key, value); (k in r <==> k in m) && (k in m ==> r[k] == m[k])
  {
  }

  /** When no member but the `i`-th names day `k`, the loaded notes hold `k` exactly when that
      member is a string, and then hold its text. */
  lemma {:induction false} NoteOfOnlyMember(fields: seq<(string, Json)>, i: int, k: DateKey)
    requires forall m :: 0 <= m < |fields| && m != i ==> Deserialize(fields[m].0) != Some(k)
    ensures k in LoadNotes(fields) <==> 0 <= i < |fields| && Deserialize(fields[i].0) == Some(k) && fields[i].1.JStr?
    ensures k in LoadNotes(fields) ==> LoadNotes(fields)[k] == fields[i].1.s
  {
    if fields != [] {
      var prefix := fields[..|fields| - 1];
      var last := fields[|fields| - 1];
      assert forall m :: 0 <= m < |prefix| ==> prefix[m] == fields[m];
      NoteOfOnlyMember(prefix, i, k);
      var before := LoadNotes(prefix);
      assert LoadNotes(fields) == AddNote(before, last.0, last.1);
      if i == |fields| - 1 {
        assert k !in before;
      } else {
        AddNoteChangesOneDay(before, last.0, last.1, k);
      }
    }
  }

  /** When no member but the `i`-th names day `k`, the loaded assignments hold `k` exactly when
      that member is a list that normalises to something, and then hold the normalised list. */
  lemma {:induction false} DayOfOnlyMember(fields: seq<(string, Json)>, i: int, k: DateKey)
    requires forall m :: 0 <= m < |fields| && m != i ==> Deserialize(fields[m].0) != Some(k)
    ensures k in LoadAssignments(fields) <==>
      0 <= i < |fields| && Deserialize(fields[i].0) == Some(k) && fields[i].1.JArr? && NormalizeEntries(fields[i].1.items) != []
    ensures k in LoadAssignments(fields) ==> LoadAssignments(fields)[k] == NormalizeEntries(fields[i].1.items)
  {
    if fields != [] {
      var prefix := fields[..|fields| - 1];
      var last := fields[|fields| - 1];
      assert forall m :: 0 <= m < |prefix| ==> prefix[m] == fields[m];
      DayOfOnlyMember(prefix, i, k);
      var before := LoadAssignments(prefix);
      assert LoadAssignments(fields) == AddDay(before, last.0, last.1);
      if i == |fields| - 1 {
        assert k !in before;
      } else {
        AddDayOther(before, last.0, last.1, k);
      }
    }
  }

  /** Every name of the dict is a name of the object. */
  lemma MemberNameOccurs(fields: seq<(string, Json)>, m: int) returns (n: int)
    requires 0 <= m < |Members(fields)|
    ensures 0 <= n < |fields| && fields[n].0 == Members(fields)[m].0
  {
    MembersValues(fields);
    var d := Members(fields);
    assert Lookup(fields, d[m].0) == Some(d[m].1);
    n :| 0 <= n < |fields| && fields[n] == (d[m].0, d[m].1);
  }

  /** The dict's member that is the only one reading as day `k` (index -1 when there is none):
      every other name of the object reads as another day or as none. */
  lemma OnlyMemberOfName(fields: seq<(string, Json)>, name: string, k: DateKey) returns (i: int)
    requires Deserialize(name) == Some(k)
    requires forall n :: 0 <= n < |fields| && fields[n].0 != name ==> Deserialize(fields[n].0) != Some(k)
    ensures -1 <= i < |Members(fields)|
    ensures forall m :: 0 <= m < |Members(fields)| && m != i ==> Deserialize(Members(fields)[m].0) != Some(k)
    ensures i >= 0 <==> Lookup(fields, name).Some?
    ensures i >= 0 ==> Members(fields)[i] == (name, Lookup(fields, name).value)
  {
    var d := Members(fields);
    MembersDistinct(fields);
    i := NameIndex(d, name);
    forall m | 0 <= m < |d| && m != i ensures Deserialize(d[m].0) != Some(k) {
      var n := MemberNameOccurs(fields, m);
      assert d[m].0 != name;
    }
    if i >= 0 {
      MembersValues(fields);
      assert Lookup(fields, d[i].0) == Some(d[i].1);
    } else {
      NewNameIsNew(fields, name);
    }
  }

  /** A note is loaded for day `k` when the object names it under one name only, and then
      exactly when the value that name last holds is a string: the last member with that name
      decides, whatever its type. */
  lemma LoadedNoteOfName(nf: seq<(string, Json)>, name: string, k: DateKey)
    requires Deserialize(name) == Some(k)
    requires forall n :: 0 <= n < |nf| && nf[n].0 != name ==> Deserialize(nf[n].0) != Some(k)
    ensures k in LoadNotes(Members(nf)) <==> Lookup(nf, name).Some? && Lookup(nf, name).value.JStr?
    ensures k in LoadNotes(Members(nf)) ==> LoadNotes(Members(nf))[k] == Lookup(nf, name).value.s
  {
    var i := OnlyMemberOfName(nf, name, k);
    NoteOfOnlyMember(Members(nf), i, k);
  }

  /** A day is loaded for `k` when the object names it under one name only, and then exactly
      when the value that name last holds is a list that normalises to something. */
  lemma LoadedDayOfName(af: seq<(string, Json)>, name: string, k: DateKey)
    requires Deserialize(name) == Some(k)
    requires forall n :: 0 <= n < |af| && af[n].0 != name ==> Deserialize(af[n].0) != Some(k)
    ensures k in LoadAssignments(Members(af)) <==>
      Lookup(af, name).Some? && Lookup(af, name).value.JArr? && NormalizeEntries(Lookup(af, name).value.items) != []
    ensures k in LoadAssignments(Members(af)) ==>
      LoadAssignments(Members(af))[k] == NormalizeEntries(Lookup(af, name).value.items)
  {
    var i := OnlyMemberOfName(af, name, k);
    DayOfOnlyMember(Members(af), i, k);
  }

  /** The notes read from the `notes` member, if it is an object. */
  function NotesOf(member: Option<Json>): (r: Notes)
    ensures !(member.Some? && member.value.JObj?) ==> r == map[]
  {
    match member
    case Some(JObj(nf)) => LoadNotes(Members(nf))
    case _ => map[]
  }

  /** The assignments read from the `assignments` member, if it is an object. */
  function DaysOf(member: Option<Json>): (r: Assignments)
    ensures NoEmptyDays(r)
    ensures !(member.Some? && member.value.JObj?) ==> r == map[]
  {
    match member
    case Some(JObj(af)) => LoadAssignments(Members(af))
    case _ => map[]
  }

  /** `_load_state`: `None` stands for a missing file or a file that is not valid JSON. Anything
      but an object gives the empty state; a `notes` or `assignments` member that is not an object
      is ignored. Each object is first read into a dict, as `json.load` does, and the loops run
      over that dict's members. */
  function Load(data: Option<Json>): (s: CalendarState)
    ensures NoEmptyDays(s.assignments)
    ensures data.None? ==> s == CalendarState(map[], map[])
  {
    if data.Some? && data.value.JObj? then
      var fields := data.value.fields;
      CalendarState(NotesOf(Lookup(fields, "notes")), DaysOf(Lookup(fields, "assignments")))
    else
      CalendarState(map[], map[])
  }

  /** The order in which a Python dict yields its keys: every key once. */
  ghost predicate IsOrdering(order: seq<DateKey>, keys: set<DateKey>) {
    && (forall i, j :: 0 <= i < j < |order| ==> order[i] != order[j])
    && (forall i :: 0 <= i < |order| ==> order[i] in keys)
    && (forall k :: k in keys ==> k in order)
  }

  /** The `notes` object `_save_state` builds, one member per day in dict order. */
  function SaveNotes(notes: Notes, order: seq<DateKey>): (r: seq<(string, Json)>)
    requires forall i :: 0 <= i < |order| ==> order[i] in notes
    ensures |r| == |order|
  {
    if order == [] then []
    else
      var last := order[|order| - 1];
      SaveNotes(notes, order[..|order| - 1]) + [(Serialize(last), JStr(notes[last]))]
  }

  /** A day list as `_save_state` writes it: each pair becomes a two-element list. */
  function SaveEntries(list: seq<Assignment>): (r: seq<Json>)
    ensures |r| == |list|
  {
    seq(|list|, n requires 0 <= n < |list| => JArr([JStr(list[n].orderNumber), JStr(list[n].company)]))
  }

  function SaveAssignments(assignments: Assignments, order: seq<DateKey>): (r: seq<(string, Json)>)
    requires forall i :: 0 <= i < |order| ==> order[i] in assignments
    ensures |r| == |order|
  {
    if order == [] then []
    else
      var last := order[|order| - 1];
      SaveAssignments(assignments, order[..|order| - 1]) + [(Serialize(last), JArr(SaveEntries(assignments[last])))]
  }

  /** `_save_state`: `{"notes": {...}, "assignments": {...}}`. */
  function Save(s: CalendarState, noteOrder: seq<DateKey>, dayOrder: seq<DateKey>): (j: Json)
    requires IsOrdering(noteOrder, s.notes.Keys) && IsOrdering(dayOrder, s.assignments.Keys)
    ensures j.JObj? && |j.fields| == 2
    ensures j.fields[0].0 == "notes" && j.fields[0].1.JObj? && |j.fields[0].1.fields| == |noteOrder|
    ensures j.fields[1].0 == "assignments" && j.fields[1].1.JObj? && |j.fields[1].1.fields| == |dayOrder|
  {
    JObj([("notes", JObj(SaveNotes(s.notes, noteOrder))),
          ("assignments", JObj(SaveAssignments(s.assignments, dayOrder)))])
  }

  /** Every day of the state has a key that reads back. */
  ghost predicate KeysReadBack(s: CalendarState) {
    && (forall k :: k in s.notes ==> NonNegative(k))
    && (forall k :: k in s.assignments ==> NonNegative(k))
  }

  /** The part of `m` on the days listed in `order`. */
  ghost function Restrict<V>(m: map<DateKey, V>, order: seq<DateKey>): (r: map<DateKey, V>)
    requires forall i :: 0 <= i < |order| ==> order[i] in m
  {
    map k | k in order :: m[k]
  }

  lemma RestrictSnoc<V>(m: map<DateKey, V>, prefix: seq<DateKey>, last: DateKey)
    requires forall i :: 0 <= i < |prefix| ==> prefix[i] in m
    requires last in m
    ensures Restrict(m, prefix + [last]) == Restrict(m, prefix)[last := m[last]]
  {
    var order := prefix + [last];
    forall k ensures k in order <==> k in prefix || k == last {
      if k in order {
        var i :| 0 <= i < |order| && order[i] == k;
        if i < |prefix| { assert prefix[i] == k; }
      }
    }
  }

  lemma LoadNoteKey(before: Notes, k: DateKey, v: string)
    requires NonNegative(k)
    ensures AddNote(before, Serialize(k), JStr(v)) == before[k := v]
  {
    RoundTrip(k);
  }

  lemma {:induction false} NotesRoundTrip(notes: Notes, order: seq<DateKey>)
    requires forall i :: 0 <= i < |order| ==> order[i] in notes && NonNegative(order[i])
    ensures LoadNotes(SaveNotes(notes, order)) == Restrict(notes, order)
  {
    if order == [] {
      assert Restrict(notes, order) == map[];
    } else {
      var last := order[|order| - 1];
      var prefix := order[..|order| - 1];
      assert order == prefix + [last];
      var fields := SaveNotes(notes, order);
      assert fields[..|fields| - 1] == SaveNotes(notes, prefix);
      NotesRoundTrip(notes, prefix);
      LoadNoteKey(Restrict(notes, prefix), last, notes[last]);
      RestrictSnoc(notes, prefix, last);
    }
  }

  lemma {:induction false} EntriesRoundTrip(list: seq<Assignment>)
    ensures NormalizeEntries(SaveEntries(list)) == list
  {
    if list != [] {
      var prefix := list[..|list| - 1];
      assert SaveEntries(list)[..|list| - 1] == SaveEntries(prefix);
      EntriesRoundTrip(prefix);
      assert list == prefix + [list[|list| - 1]];
    }
  }

  lemma LoadDayKey(before: Assignments, k: DateKey, list: seq<Assignment>)
    requires NonNegative(k) && list != []
    ensures AddDay(before, Serialize(k), JArr(SaveEntries(list))) == before[k := list]
  {
    RoundTrip(k);
    EntriesRoundTrip(list);
    AddReadDay(before, Serialize(k), SaveEntries(list), k, list);
  }

  lemma AddReadDay(before: Assignments, key: string, items: seq<Json>, k: DateKey, list: seq<Assignment>)
    requires Deserialize(key) == Some(k) && NormalizeEntries(items) == list && list != []
    ensures AddDay(before, key, JArr(items)) == before[k := list]
  {
  }

  lemma {:induction false} AssignmentsRoundTrip(assignments: Assignments, order: seq<DateKey>)
    requires NoEmptyDays(assignments)
    requires forall i :: 0 <= i < |order| ==> order[i] in assignments && NonNegative(order[i])
    ensures LoadAssignments(SaveAssignments(assignments, order)) == Restrict(assignments, order)
  {
    if order == [] {
      assert Restrict(assignments, order) == map[];
    } else {
      var last := order[|order| - 1];
      var prefix := order[..|order| - 1];
      assert order == prefix + [last];
      var fields := SaveAssignments(assignments, order);
      assert fields[..|fields| - 1] == SaveAssignments(assignments, prefix);
      AssignmentsRoundTrip(assignments, prefix);
      LoadDayKey(Restrict(assignments, prefix), last, assignments[last]);
      RestrictSnoc(assignments, prefix, last);
    }
  }

  /** `_load_state` on the object `_save_state` builds reads each of its two members. */
  lemma LoadSavedObject(nf: seq<(string, Json)>, af: seq<(string, Json)>)
    ensures Load(Some(JObj([("notes", JObj(nf)), ("assignments", JObj(af))])))
         == CalendarState(LoadNotes(Members(nf)), LoadAssignments(Members(af)))
  {
    assert "notes" != "assignments" by { assert |"assignments"| != |"notes"|; }
    LookupPair("notes", JObj(nf), "assignments", JObj(af));
  }

  /** Looking up either name of a two-member object with different names. */
  lemma LookupPair(a: string, va: Json, b: string, vb: Json)
    requires a != b
    ensures Lookup([(a, va), (b, vb)], a) == Some(va)
    ensures Lookup([(a, va), (b, vb)], b) == Some(vb)
  {
    assert [(a, va), (b, vb)][..1] == [(a, va)];
  }

  /** The day keys in `order`, serialised. */
  function SerializeAll(order: seq<DateKey>): (r: seq<string>)
    ensures |r| == |order|
  {
    if order == [] then [] else SerializeAll(order[..|order| - 1]) + [Serialize(order[|order| - 1])]
  }

  lemma SnocAt<T>(s0: seq<T>, x: T, i: int)
    requires 0 <= i < |s0|
    ensures (s0 + [x])[i] == s0[i]
  {
  }

  lemma {:induction false} SerializeAllAt(order: seq<DateKey>, i: int)
    requires 0 <= i < |order|
    ensures SerializeAll(order)[i] == Serialize(order[i])
  {
    var prefix := order[..|order| - 1];
    if i < |prefix| {
      SerializeAllAt(prefix, i);
      SnocAt(SerializeAll(prefix), Serialize(order[|order| - 1]), i);
      assert order[i] == prefix[i];
    }
  }

  /** Appending a member keeps the names before it. */
  lemma SnocNames(r0: seq<(string, Json)>, x: (string, Json), names0: seq<string>, i: int)
    requires |names0| == |r0| && 0 <= i <= |r0|
    requires forall j :: 0 <= j < |r0| ==> r0[j].0 == names0[j]
    ensures (r0 + [x])[i].0 == (names0 + [x.0])[i]
  {
  }

  /** The names `_save_state` writes are the serialised days, in dict order. */
  lemma {:induction false} SaveNotesNames(notes: Notes, order: seq<DateKey>)
    requires forall j :: 0 <= j < |order| ==> order[j] in notes
    ensures forall i :: 0 <= i < |order| ==> SaveNotes(notes, order)[i].0 == SerializeAll(order)[i]
  {
    if order != [] {
      var prefix := order[..|order| - 1];
      var last := order[|order| - 1];
      SaveNotesNames(notes, prefix);
      var r0 := SaveNotes(notes, prefix);
      var x := (Serialize(last), JStr(notes[last]));
      assert SaveNotes(notes, order) == r0 + [x];
      assert SerializeAll(order) == SerializeAll(prefix) + [x.0];
      forall i | 0 <= i < |order| ensures SaveNotes(notes, order)[i].0 == SerializeAll(order)[i] {
        SnocNames(r0, x, SerializeAll(prefix), i);
      }
    }
  }

  lemma {:induction false} SaveAssignmentsNames(assignments: Assignments, order: seq<DateKey>)
    requires forall j :: 0 <= j < |order| ==> order[j] in assignments
    ensures forall i :: 0 <= i < |order| ==> SaveAssignments(assignments, order)[i].0 == SerializeAll(order)[i]
  {
    if order != [] {
      var prefix := order[..|order| - 1];
      var last := order[|order| - 1];
      SaveAssignmentsNames(assignments, prefix);
      var r0 := SaveAssignments(assignments, prefix);
      var x := (Serialize(last), JArr(SaveEntries(assignments[last])));
      assert SaveAssignments(assignments, order) == r0 + [x];
      assert SerializeAll(order) == SerializeAll(prefix) + [x.0];
      forall i | 0 <= i < |order| ensures SaveAssignments(assignments, order)[i].0 == SerializeAll(order)[i] {
        SnocNames(r0, x, SerializeAll(prefix), i);
      }
    }
  }

  /** Distinct days with non-negative keys are saved under distinct names. */
  lemma SerializedNamesDistinct(order: seq<DateKey>)
    requires forall i, j :: 0 <= i < j < |order| ==> order[i] != order[j]
    requires forall i :: 0 <= i < |order| ==> NonNegative(order[i])
    ensures forall i, j :: 0 <= i < j < |order| ==> Serialize(order[i]) != Serialize(order[j])
  {
    forall i, j | 0 <= i < j < |order| ensures Serialize(order[i]) != Serialize(order[j]) {
      if Serialize(order[i]) == Serialize(order[j]) {
        SerializeInjective(order[i], order[j]);
      }
    }
  }

  lemma SavedNotesDistinct(notes: Notes, order: seq<DateKey>)
    requires IsOrdering(order, notes.Keys)
    requires forall k :: k in notes ==> NonNegative(k)
    ensures DistinctNames(SaveNotes(notes, order))
  {
    SerializedNamesDistinct(order);
    SaveNotesNames(notes, order);
    var r := SaveNotes(notes, order);
    forall i, j | 0 <= i < j < |r| ensures r[i].0 != r[j].0 {
      SerializeAllAt(order, i);
      SerializeAllAt(order, j);
    }
  }

  lemma SavedDaysDistinct(assignments: Assignments, order: seq<DateKey>)
    requires IsOrdering(order, assignments.Keys)
    requires forall k :: k in assignments ==> NonNegative(k)
    ensures DistinctNames(SaveAssignments(assignments, order))
  {
    SerializedNamesDistinct(order);
    SaveAssignmentsNames(assignments, order);
    var r := SaveAssignments(assignments, order);
    forall i, j | 0 <= i < j < |r| ensures r[i].0 != r[j].0 {
      SerializeAllAt(order, i);
      SerializeAllAt(order, j);
    }
  }

  lemma RestrictAll<V>(m: map<DateKey, V>, order: seq<DateKey>)
    requires IsOrdering(order, m.Keys)
    ensures Restrict(m, order) == m
  {
  }

  /** A state whose day keys are non-negative and which has no empty day reads back exactly as
      it was saved, whatever order the dicts yield their keys in. */
  lemma SaveLoadRoundTrip(s: CalendarState, noteOrder: seq<DateKey>, dayOrder: seq<DateKey>)
    requires IsOrdering(noteOrder, s.notes.Keys) && IsOrdering(dayOrder, s.assignments.Keys)
    requires KeysReadBack(s) && NoEmptyDays(s.assignments)
    ensures Load(Some(Save(s, noteOrder, dayOrder))) == s
  {
    var nf := SaveNotes(s.notes, noteOrder);
    var af := SaveAssignments(s.assignments, dayOrder);
    LoadSavedObject(nf, af);
    SavedNotesDistinct(s.notes, noteOrder);
    SavedDaysDistinct(s.assignments, dayOrder);
    MembersOfDistinct(nf);
    MembersOfDistinct(af);
    NotesRoundTrip(s.notes, noteOrder);
    AssignmentsRoundTrip(s.assignments, dayOrder);
    RestrictAll(s.notes, noteOrder);
    RestrictAll(s.assignments, dayOrder);
  }

  /** An empty day in the store would not survive a save and a load, which is why the store
      drops emptied days. */
  lemma EmptyDayIsDropped(list: seq<Json>, key: string)
    requires NormalizeEntries(list) == []
    ensures LoadAssignments([(key, JArr(list))]) == map[]
  {
    assert [(key, JArr(list))][..0] == [];
  }
}
