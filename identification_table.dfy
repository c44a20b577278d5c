/**
 * The Triangle compiler's identification table: a block-structured symbol
 * table kept as a chain of entries, the latest first. Each scope level that
 * is open contributes the entries declared in it; closing a level throws them
 * away.
 */
module ContextualAnalyzer {

  /** The attribute stored for an identifier: the declaration that introduced it.
      Only the `duplicated` flag, which the table writes, is modelled. */
  class Declaration {
    var duplicated: bool
  }

  /** One link of the chain. The `previous` reference of the source is the
      position of the entry in the sequence that holds the chain. */
  datatype IdEntry = IdEntry(name: string, attr: Declaration, level: nat)

  /** The abstract state of a table: the current level and the chain from
      `latest` backwards. */
  datatype Table = Table(level: nat, entries: seq<IdEntry>)

  /** The table's invariant: along the chain levels never increase, and no entry
      lies above the current level. */
  ghost predicate Nested(t: Table)
  {
    && (forall i :: 0 <= i < |t.entries| ==> t.entries[i].level <= t.level)
    && (forall i, j :: 0 <= i <= j < |t.entries| ==> t.entries[j].level <= t.entries[i].level)
  }

  /** Closing the current level is only possible when an entry below it exists:
      the source walks the chain without a null check. */
  ghost predicate HasOuter(t: Table)
  {
    exists i :: 0 <= i < |t.entries| && t.entries[i].level < t.level
  }

  /** `name` is already declared at the current level. */
  ghost predicate IsDuplicate(t: Table, name: string)
  {
    exists i :: 0 <= i < |t.entries| && t.entries[i].level == t.level && t.entries[i].name == name
  }

  ghost function Empty(): (t: Table)
    ensures Nested(t) && t.level == 0 && t.entries == []
  {
    Table(0, [])
  }

  ghost function Opened(t: Table): (r: Table)
    ensures Nested(t) ==> Nested(r)
    ensures r.level == t.level + 1 && r.entries == t.entries
  {
    Table(t.level + 1, t.entries)
  }

  ghost function WithEntry(t: Table, name: string, attr: Declaration): (r: Table)
    ensures Nested(t) ==> Nested(r)
    ensures r.level == t.level
    ensures |r.entries| == |t.entries| + 1 && r.entries[1..] == t.entries
    ensures r.entries[0] == IdEntry(name, attr, t.level)
  {
    Table(t.level, [IdEntry(name, attr, t.level)] + t.entries)
  }

  /** The chain after discarding its leading entries at level `lvl`. */
  ghost function DropLevel(es: seq<IdEntry>, lvl: nat): (r: seq<IdEntry>)
  {
    if es != [] && es[0].level == lvl then DropLevel(es[1..], lvl) else es
  }

  /** The entries of `es` whose level is below `lvl`, in chain order. */
  ghost function Below(es: seq<IdEntry>, lvl: nat): (r: seq<IdEntry>)
    ensures forall i :: 0 <= i < |r| ==> r[i].level < lvl
  {
    if es == [] then []
    else if es[0].level < lvl then [es[0]] + Below(es[1..], lvl)
    else Below(es[1..], lvl)
  }

  ghost function Closed(t: Table): (r: Table)
    requires Nested(t) && HasOuter(t)
    ensures Nested(r)
    ensures r.level == t.level - 1
    ensures r.entries == Below(t.entries, t.level)
  {
    DropLevelIsBelow(t);
    Table(t.level - 1, DropLevel(t.entries, t.level))
  }

  lemma {:induction false} AllBelow(es: seq<IdEntry>, lvl: nat)
    requires forall i :: 0 <= i < |es| ==> es[i].level < lvl
    ensures Below(es, lvl) == es
  {
    if es != [] {
      AllBelow(es[1..], lvl);
    }
  }

  /** DropLevel removes a leading run of entries at level `lvl`, and no more. */
  lemma {:induction false} DropLevelSuffix(es: seq<IdEntry>, lvl: nat) returns (k: nat)
    ensures k <= |es| && DropLevel(es, lvl) == es[k..]
    ensures forall j :: 0 <= j < k ==> es[j].level == lvl
    ensures k < |es| ==> es[k].level != lvl
  {
    if es != [] && es[0].level == lvl {
      var k' := DropLevelSuffix(es[1..], lvl);
      k := k' + 1;
      assert es[1..][k'..] == es[k..];
      forall j | 0 <= j < k ensures es[j].level == lvl {
        if j > 0 { assert es[j] == es[1..][j - 1]; }
      }
    } else {
      k := 0;
    }
  }

  /** Entries at level `lvl` at the front of the chain are not below `lvl`. */
  lemma {:induction false} BelowSkipsLevel(es: seq<IdEntry>, lvl: nat, k: nat)
    requires k <= |es|
    requires forall j :: 0 <= j < k ==> es[j].level == lvl
    ensures Below(es, lvl) == Below(es[k..], lvl)
  {
    if k > 0 {
      assert es[1..][k - 1..] == es[k..];
      BelowSkipsLevel(es[1..], lvl, k - 1);
    }
  }

  /** A suffix of a nested chain that starts below `lvl` is nested one level down. */
  lemma SuffixNested(t: Table, k: nat)
    requires Nested(t) && k < |t.entries| && t.entries[k].level < t.level
    ensures Nested(Table(t.level - 1, t.entries[k..]))
  {
    var es, rest := t.entries, t.entries[k..];
    forall m | 0 <= m < |rest| ensures rest[m].level <= t.level - 1 {
      assert rest[m] == es[k + m];
    }
    forall m, n | 0 <= m <= n < |rest| ensures rest[n].level <= rest[m].level {
      assert rest[m] == es[k + m] && rest[n] == es[k + n];
    }
  }

  /** Walking past the entries of the current level leaves exactly the entries
      of the lower levels, in order, and that chain is nested one level down. */
  lemma DropLevelIsBelow(t: Table)
    requires Nested(t) && HasOuter(t)
    ensures DropLevel(t.entries, t.level) == Below(t.entries, t.level)
    ensures Nested(Table(t.level - 1, DropLevel(t.entries, t.level)))
  {
    var es, lvl := t.entries, t.level;
    var k := DropLevelSuffix(es, lvl);
    var i :| 0 <= i < |es| && es[i].level < lvl;
    assert k <= i;
    assert es[k].level < lvl;
    SuffixNested(t, k);
    BelowSkipsLevel(es, lvl, k);
    AllBelow(es[k..], lvl);
  }

  /** The attribute of the most recent entry for `name`, or null. */
  function Lookup(es: seq<IdEntry>, name: string): (r: Declaration?)
    ensures r == null <==> forall i :: 0 <= i < |es| ==> es[i].name != name
    ensures r != null ==> exists i :: 0 <= i < |es| && es[i].name == name && es[i].attr == r
                                       && forall j :: 0 <= j < i ==> es[j].name != name
  {
    if es == [] then null
    else if es[0].name == name then es[0].attr
    else
      var r := Lookup(es[1..], name);
      assert forall i :: 0 < i < |es| ==> es[i] == es[1..][i - 1];
      r
  }

  /** The entry found is also the one of the highest level among those for `name`. */
  lemma LookupIsInnermost(t: Table, name: string, k: int)
    requires Nested(t)
    requires 0 <= k < |t.entries| && t.entries[k].name == name
    ensures Lookup(t.entries, name) != null
    ensures exists i :: 0 <= i <= k && t.entries[i].name == name && t.entries[i].attr == Lookup(t.entries, name)
                        && t.entries[i].level >= t.entries[k].level
  {
  }

  /** A new entry shadows every older entry for the same name and hides
      nothing else. */
  lemma EnterThenLookup(t: Table, name: string, attr: Declaration, other: string)
    requires other != name
    ensures Lookup(WithEntry(t, name, attr).entries, name) == attr
    ensures Lookup(WithEntry(t, name, attr).entries, other) == Lookup(t.entries, other)
  {
    assert WithEntry(t, name, attr).entries[1..] == t.entries;
  }

  /** The state after entering every (name, attribute) pair of `ds` in order. */
  ghost function EnterAll(t: Table, ds: seq<(string, Declaration)>): (r: Table)
    ensures r.level == t.level
    ensures |r.entries| == |t.entries| + |ds|
    ensures r.entries[|ds|..] == t.entries
    ensures forall i :: 0 <= i < |ds| ==> r.entries[i].level == t.level
    decreases |ds|
  {
    if ds == [] then t
    else EnterAll(WithEntry(t, ds[0].0, ds[0].1), ds[1..])
  }

  /** Opening a scope, declaring anything in it and closing it again restores
      the table exactly, provided the chain is not empty (the walk in closeScope
      needs an entry below the new level). */
  lemma {:induction false} OpenEnterClose(t: Table, ds: seq<(string, Declaration)>)
    requires Nested(t) && t.entries != []
    ensures Nested(EnterAll(Opened(t), ds))
    ensures HasOuter(EnterAll(Opened(t), ds))
    ensures Closed(EnterAll(Opened(t), ds)) == t
  {
    var o := Opened(t);
    var r := EnterAll(o, ds);
    EnterAllNested(o, ds);
    assert r.entries[|ds|] == t.entries[0];
    DropEntered(r.entries, |ds|, o.level);
    assert r.entries[|ds|..] == t.entries;
    assert t.entries[0].level < o.level;
  }

  lemma EnterAllNested(t: Table, ds: seq<(string, Declaration)>)
    requires Nested(t)
    ensures Nested(EnterAll(t, ds))
  {
  }

  lemma {:induction false} DropEntered(es: seq<IdEntry>, n: nat, lvl: nat)
    requires n < |es|
    requires forall i :: 0 <= i < n ==> es[i].level == lvl
    requires es[n].level < lvl
    ensures DropLevel(es, lvl) == es[n..]
  {
    if n > 0 {
      DropEntered(es[1..], n - 1, lvl);
      assert es[1..][n - 1..] == es[n..];
    }
  }

  lemma DropLevelStep(es: seq<IdEntry>, k: nat, lvl: nat)
    requires k < |es| && es[k].level == lvl
    ensures DropLevel(es[k..], lvl) == DropLevel(es[k + 1..], lvl)
  {
    assert es[k..][1..] == es[k + 1..];
  }

  lemma ClosedIsDrop(t: Table, entry: nat)
    requires Nested(t) && HasOuter(t)
    requires entry <= |t.entries| && DropLevel(t.entries, t.level) == t.entries[entry..]
    ensures Closed(t) == Table(t.level - 1, t.entries[entry..])
  {
  }

  /** With no declarations in between, closeScope undoes openScope. */
  lemma OpenCloseInverse(t: Table)
    requires Nested(t) && t.entries != []
    ensures HasOuter(Opened(t)) && Closed(Opened(t)) == t
  {
    OpenEnterClose(t, []);
  }

  /** The walk of closeScope: the position of the first entry of `chain`
      whose level is not `lvl`, which exists because some entry is below it. */
  method SkipLevel(chain: seq<IdEntry>, lvl: nat) returns (entry: nat)
    requires exists m :: 0 <= m < |chain| && chain[m].level < lvl
    ensures entry < |chain| && chain[entry].level != lvl
    ensures forall k :: 0 <= k < entry ==> chain[k].level == lvl
    ensures DropLevel(chain, lvl) == chain[entry..]
  {
    ghost var m :| 0 <= m < |chain| && chain[m].level < lvl;
    entry := 0;
    while chain[entry].level == lvl
      invariant 0 <= entry <= m
      invariant forall k :: 0 <= k < entry ==> chain[k].level == lvl
      invariant DropLevel(chain[entry..], lvl) == DropLevel(chain, lvl)
      decreases m - entry
    {
      DropLevelStep(chain, entry, lvl);
      entry := entry + 1;
    }
  }

  class IdentificationTable {
    var level: nat
    /** The chain of entries starting at `latest`. */
    var entries: seq<IdEntry>

    ghost function State(): Table
      reads this
    {
      Table(level, entries)
    }

    ghost predicate Valid()
      reads this
    {
      Nested(State())
    }

    constructor ()
      ensures Valid() && State() == Empty()
    {
      level := 0;
      entries := [];
    }

    method OpenScope()
      requires Valid()
      modifies this
      ensures Valid() && State() == Opened(old(State()))
    {
      level := level + 1;
    }

    method CloseScope()
      requires Valid() && HasOuter(State())
      modifies this
      ensures Valid() && State() == Closed(old(State()))
    {
      var entry := SkipLevel(entries, level);
      ClosedIsDrop(State(), entry);
      level, entries := level - 1, entries[entry..];
    }

    method Enter(name: string, attr: Declaration)
      requires Valid()
      modifies this, attr
      ensures Valid()
      ensures attr.duplicated == IsDuplicate(old(State()), name)
      ensures State() == WithEntry(old(State()), name, attr)
    {
      var k := 0;
      var present := false;
      var searching := true;
      while searching
        invariant 0 <= k <= |entries|
        invariant forall j :: 0 <= j < k ==> entries[j].level == level && entries[j].name != name
        invariant !searching && !present ==> k == |entries| || entries[k].level < level
        invariant present ==> k < |entries| && entries[k].level == level && entries[k].name == name
        invariant present ==> !searching
        decreases |entries| - k, searching
      {
        if k == |entries| || entries[k].level < level {
          searching := false;
        } else if entries[k].name == name {
          present := true;
          searching := false;
        } else {
          k := k + 1;
        }
      }
      attr.duplicated := present;
      entries := [IdEntry(name, attr, level)] + entries;
    }

    method Retrieve(name: string) returns (attr: Declaration?)
      ensures attr == Lookup(entries, name)
    {
      attr := null;
      var k := 0;
      var searching := true;
      while searching
        invariant 0 <= k <= |entries|
        invariant forall j :: 0 <= j < k ==> entries[j].name != name
        invariant searching ==> attr == null
        invariant !searching ==> attr == Lookup(entries, name)
        decreases |entries| - k, searching
      {
        if k == |entries| {
          searching := false;
        } else if entries[k].name == name {
          searching := false;
          attr := entries[k].attr;
        } else {
          k := k + 1;
        }
      }
    }
  }
}
