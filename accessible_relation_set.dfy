/**
 * GtkAccessibleRelationSet: the accessible relations an accessible object
 * carries, kept as a membership bitmask over relation numbers plus one value
 * slot per relation, and printed as a block of "name: value" lines.
 */
module AccessibleRelationSet {
  import opened Optional

  /** GTK_ACCESSIBLE_RELATION_ACTIVE_DESCENDANT, the first relation. */
  const ACTIVE_DESCENDANT: int := 0
  /** GTK_ACCESSIBLE_RELATION_SET_SIZE, the last relation (not a count). */
  const SET_SIZE: int := 17

  /** The slot count the value array is allocated with in the source: the last relation's number. */
  const RELATION_SLOTS_AS_WRITTEN: nat := 17
  /** One slot per relation: ACTIVE_DESCENDANT .. SET_SIZE. */
  const RELATION_SLOTS: nat := 18

  /** The printed name of each relation, indexed by relation number. */
  const RELATION_NAMES: seq<string> := [
    "activedescendant", "colcount", "colindex", "colindextext", "colspan",
    "controls", "describedby", "details", "errormessage", "flowto",
    "labelledby", "owns", "posinset", "rowcount", "rowindex",
    "rowindextext", "rowspan", "setsize"
  ]

  /** The range every public operation's guard accepts. */
  predicate IsRelation(r: int) {
    ACTIVE_DESCENDANT <= r <= SET_SIZE
  }

  /** Relation `r` has a slot in a value array allocated with `slots` entries. */
  predicate SlotInBounds(r: int, slots: nat) {
    0 <= r < slots
  }

  /**
   * A relation value handle: the default value of a relation, or one the
   * caller supplied. Only identity matters to the set.
   */
  datatype Value = DefaultFor(relation: nat) | Given(id: nat)

  // ---------------------------------------------------------------------
  // The slot count

  /**
   * As written, the guard accepts SET_SIZE but the value array has no slot
   * for it, and the printer walks one name past the allocation.
   */
  lemma SetSizeSlotMissingAsWritten()
    ensures IsRelation(SET_SIZE) && !SlotInBounds(SET_SIZE, RELATION_SLOTS_AS_WRITTEN)
    ensures !SlotInBounds(|RELATION_NAMES| - 1, RELATION_SLOTS_AS_WRITTEN)
  {
  }

  /** With one slot per relation, every relation the guard accepts and every printed name has a slot. */
  lemma RelationIndexInBounds(r: int)
    requires IsRelation(r)
    ensures SlotInBounds(r, RELATION_SLOTS) && r < |RELATION_NAMES|
    ensures forall k :: 0 <= k < |RELATION_NAMES| ==> SlotInBounds(k, RELATION_SLOTS)
  {
  }

  // ---------------------------------------------------------------------
  // Printing

  /** One printed line: four spaces, the relation's name, a colon and the rendered value. */
  function Entry(name: string, rendered: string): (line: string) {
    "    " + name + ": " + rendered + ",\n"
  }

  /** Appending the pieces of a line one by one appends the line. */
  lemma EntryAppend(prefix: string, name: string, rendered: string)
    ensures prefix + "    " + name + ": " + rendered + ",\n" == prefix + Entry(name, rendered)
  {
  }

  /** Whether the printer lists relation `r`: every relation, or only the members when `onlySet`. */
  predicate Listed(onlySet: bool, members: set<int>, r: int) {
    !onlySet || r in members
  }

  /** The lines for relations 0 .. n-1 in relation order, relation r being called names[r]. */
  function Lines(onlySet: bool, members: set<int>, values: seq<Option<Value>>, names: seq<string>,
                 render: Option<Value> -> string, n: nat): (out: string)
    requires n <= |values| && n <= |names|
  {
    if n == 0 then ""
    else
      Lines(onlySet, members, values, names, render, n - 1) +
      (if Listed(onlySet, members, n - 1) then Entry(names[n - 1], render(values[n - 1])) else "")
  }

  /** What print appends: "{}" for an empty set when only members are wanted, else a braced block of lines. */
  function Printed(onlySet: bool, members: set<int>, values: seq<Option<Value>>, names: seq<string>,
                   render: Option<Value> -> string): (out: string)
    requires |names| <= |values|
  {
    if onlySet && members == {} then "{}"
    else "{\n" + Lines(onlySet, members, values, names, render, |names|) + "}"
  }

  /** Appending relation n's line, if listed, to text ending in the first n lines gives the first n + 1. */
  lemma PrintedLine(head: string, onlySet: bool, members: set<int>, values: seq<Option<Value>>,
                    names: seq<string>, render: Option<Value> -> string, n: nat)
    requires n < |values| && n < |names|
    ensures head + Lines(onlySet, members, values, names, render, n + 1) ==
      if Listed(onlySet, members, n)
      then head + Lines(onlySet, members, values, names, render, n) + Entry(names[n], render(values[n]))
      else head + Lines(onlySet, members, values, names, render, n)
  {
  }

  /** Closing the block after all lines gives what print appends. */
  lemma PrintedClose(buffer: string, onlySet: bool, members: set<int>, values: seq<Option<Value>>,
                     names: seq<string>, render: Option<Value> -> string)
    requires |names| <= |values| && !(onlySet && members == {})
    ensures buffer + Printed(onlySet, members, values, names, render) ==
            buffer + "{\n" + Lines(onlySet, members, values, names, render, |names|) + "}"
  {
  }

  /** With every relation a member, printing only the members prints the full set. */
  lemma {:induction false} AllMembersLinesAgree(members: set<int>, values: seq<Option<Value>>, names: seq<string>,
                                                render: Option<Value> -> string, n: nat)
    requires n <= |values| && n <= |names|
    requires forall r :: 0 <= r < n ==> r in members
    ensures Lines(true, members, values, names, render, n) == Lines(false, members, values, names, render, n)
  {
    if n > 0 {
      AllMembersLinesAgree(members, values, names, render, n - 1);
    }
  }

  /** The members-only lines depend only on the members' values. */
  lemma {:induction false} MemberLinesOnlyReadMembers(members: set<int>, values: seq<Option<Value>>,
                                                      values': seq<Option<Value>>, names: seq<string>,
                                                      render: Option<Value> -> string, n: nat)
    requires n <= |values| && n <= |values'| && n <= |names|
    requires forall r :: 0 <= r < n && r in members ==> values[r] == values'[r]
    ensures Lines(true, members, values, names, render, n) == Lines(true, members, values', names, render, n)
  {
    if n > 0 {
      MemberLinesOnlyReadMembers(members, values, values', names, render, n - 1);
    }
  }

  /** A set with one member prints exactly that member's line. */
  lemma {:induction false} SingleMemberLines(r: int, values: seq<Option<Value>>, names: seq<string>,
                                             render: Option<Value> -> string, n: nat)
    requires n <= |values| && n <= |names| && 0 <= r < |values| && r < |names|
    ensures Lines(true, {r}, values, names, render, n) ==
            (if r < n then Entry(names[r], render(values[r])) else "")
  {
    if n > 0 {
      SingleMemberLines(r, values, names, render, n - 1);
      var prev := Lines(true, {r}, values, names, render, n - 1);
      if n - 1 == r {
        assert prev == "";
        assert Lines(true, {r}, values, names, render, n) == prev + Entry(names[r], render(values[r]));
      } else {
        assert !Listed(true, {r}, n - 1);
        assert Lines(true, {r}, values, names, render, n) == prev + "";
      }
    }
  }

  /** Printing only the members of a one-member set gives a braced block holding its line. */
  lemma SingleMemberPrinted(r: int, values: seq<Option<Value>>, names: seq<string>, render: Option<Value> -> string)
    requires 0 <= r < |names| <= |values|
    ensures Printed(true, {r}, values, names, render) == "{\n" + Entry(names[r], render(values[r])) + "}"
  {
    SingleMemberLines(r, values, names, render, |names|);
  }

  // ---------------------------------------------------------------------
  // The set

  class RelationSet {
    /** The relation_set bitmask: the relations that were added and not removed since. */
    var members: set<int>
    /** relation_values: one slot per relation; None is a cleared slot. */
    var values: array<Option<Value>>
    /** Every value whose reference the set has given up, oldest first. */
    ghost var released: seq<Value>

    ghost predicate Valid()
      reads this, values
    {
      values.Length == RELATION_SLOTS &&
      (forall r :: IsRelation(r) ==> SlotInBounds(r, values.Length)) &&
      forall r :: r in members ==> IsRelation(r) && values[r].Some?
    }

    /** gtk_accessible_relation_set_new: no member, and every slot holding its relation's default. */
    constructor ()
      ensures Valid() && fresh(values)
      ensures members == {} && released == []
      ensures forall r :: 0 <= r < values.Length ==> values[r] == Some(DefaultFor(r))
    {
      members := {};
      released := [];
      var slots := new Option<Value>[RELATION_SLOTS];
      var i := 0;
      while i < RELATION_SLOTS
        invariant 0 <= i <= RELATION_SLOTS
        invariant forall r :: 0 <= r < i ==> slots[r] == Some(DefaultFor(r))
        modifies slots
      {
        slots[i] := Some(DefaultFor(i));
        i := i + 1;
      }
      values := slots;
    }

    /** Whether relation `r` is in the set; false for a number outside the relations. */
    function Contains(r: int): (b: bool)
      reads this, values
      ensures Valid() ==> (b <==> r in members)
      ensures !IsRelation(r) ==> !b
    {
      if !IsRelation(r) then false else r in members
    }

    /** The value slot of relation `r`; None for a number outside the relations. */
    function GetValue(r: int): (v: Option<Value>)
      requires Valid()
      reads this, values
      ensures !IsRelation(r) ==> v == None
      ensures IsRelation(r) ==> v == values[r]
      ensures Contains(r) ==> v.Some?
    {
      if !IsRelation(r) then None else values[r]
    }

    /**
     * Makes `v` the value of relation `r` and `r` a member. A value already
     * held for a member is released; the slot of a non-member is simply
     * overwritten. Numbers outside the relations change nothing.
     */
    method Add(r: int, v: Value)
      requires Valid()
      modifies this, values
      ensures Valid() && values == old(values)
      ensures !IsRelation(r) ==>
        members == old(members) && values[..] == old(values[..]) && released == old(released)
      ensures IsRelation(r) ==>
        members == old(members) + {r} &&
        values[..] == old(values[..])[r := Some(v)] &&
        released == old(released) + (if r in old(members) then [old(values[r]).value] else [])
      ensures IsRelation(r) ==> Contains(r) && GetValue(r) == Some(v)
      ensures forall q :: q != r ==> Contains(q) == old(Contains(q)) && GetValue(q) == old(GetValue(q))
    {
      if !IsRelation(r) {
        return;
      }
      if Contains(r) {
        released := released + [values[r].value];
      } else {
        members := members + {r};
      }
      values[r] := Some(v);
    }

    /**
     * Takes relation `r` out of the set, releasing and clearing its slot; a
     * relation that is not a member, or a number outside the relations,
     * changes nothing.
     */
    method Remove(r: int)
      requires Valid()
      modifies this, values
      ensures Valid() && values == old(values)
      ensures !old(Contains(r)) ==>
        members == old(members) && values[..] == old(values[..]) && released == old(released)
      ensures old(Contains(r)) ==>
        members == old(members) - {r} &&
        values[..] == old(values[..])[r := None] &&
        released == old(released) + [old(values[r]).value]
      ensures !Contains(r) && (old(Contains(r)) ==> GetValue(r) == None)
      ensures forall q :: q != r ==> Contains(q) == old(Contains(q)) && GetValue(q) == old(GetValue(q))
    {
      if Contains(r) {
        released := released + [values[r].value];
        values[r] := None;
        members := members - {r};
      }
    }

    /**
     * Appends the printed set to `buffer`, rendering each slot with `render`:
     * "{}" when only members are wanted and there are none, otherwise "{",
     * one line per listed relation in relation order, and "}".
     */
    method Print(onlySet: bool, buffer: string, render: Option<Value> -> string) returns (out: string)
      requires Valid()
      ensures out == buffer + Printed(onlySet, members, values[..], RELATION_NAMES, render)
    {
      if onlySet && members == {} {
        out := buffer + "{}";
        return;
      }
      out := buffer + "{\n";
      ghost var head := out;
      var names := RELATION_NAMES;
      var i := 0;
      while i < |names|
        invariant 0 <= i <= |names|
        invariant out == head + Lines(onlySet, members, values[..], names, render, i)
      {
        PrintedLine(head, onlySet, members, values[..], names, render, i);
        if onlySet && i !in members {
          i := i + 1;
          continue;
        }
        ghost var before := out;
        out := out + "    ";
        out := out + names[i];
        out := out + ": ";
        out := out + render(values[i]);
        out := out + ",\n";
        EntryAppend(before, names[i], render(values[i]));
        i := i + 1;
      }
      PrintedClose(buffer, onlySet, members, values[..], names, render);
      out := out + "}";
    }

    /** The members printed into a new string. */
    method ToString(render: Option<Value> -> string) returns (s: string)
      requires Valid()
      ensures s == Printed(true, members, values[..], RELATION_NAMES, render)
    {
      s := Print(true, "", render);
    }
  }
}
