/** The configuration dictionaries of parse_boards.py, merged in place. */
module Configurations {
  import opened Bytes
  import opened ConfigTree

  datatype Entry = Str(s: string) | Node(c: Configuration)

  class Configuration {
    var entries: map<string, Entry>
    /** Every dictionary of the tree below and including this one. */
    ghost var repr: set<Configuration>

    constructor ()
      ensures Valid() && fresh(repr) && repr == {this} && entries == map[]
    {
      entries := map[];
      repr := {this};
    }

    /** A tree: no dictionary is reached twice. */
    ghost predicate Valid()
      reads this, repr
      decreases repr
    {
      && this in repr
      && (forall k | k in entries && entries[k].Node? :: Below(entries[k].c))
      && (forall j, k | j in entries && k in entries && j != k && entries[j].Node? && entries[k].Node? ::
            entries[j].c.repr !! entries[k].c.repr)
    }

    ghost predicate Below(c: Configuration)
      reads this, repr
      decreases repr, 0
    {
      this in repr && c in repr && c.repr <= repr && this !in c.repr && c.Valid()
    }

    /** The tree as a value. */
    ghost function Tree(): (t: Config)
      requires Valid()
      reads this, repr
      ensures t.Dict? && t.entries.Keys == entries.Keys
      decreases repr
    {
      Dict(map k | k in entries :: Value(k))
    }

    ghost function Value(k: string): Config
      requires Valid() && k in entries
      reads this, repr
      decreases repr, 0
    {
      if entries[k].Str? then Text(entries[k].s) else (assert Below(entries[k].c); entries[k].c.Tree())
    }

    /** `__getitem__`: a missing key comes into being with an empty dictionary. */
    method Get(k: string) returns (e: Entry)
      requires Valid()
      modifies this
      ensures Valid() && old(repr) <= repr && fresh(repr - old(repr))
      ensures k in entries && e == entries[k]
      ensures k in old(entries) ==> entries == old(entries) && repr == old(repr)
      ensures Tree() == Opened(old(Tree()), k)
    {
      if k !in entries {
        var c := new Configuration();
        entries := entries[k := Node(c)];
        repr := repr + c.repr;
      }
      e := entries[k];
    }

    /** `setdefault` with a string. */
    method SetString(k: string, s: string)
      requires Valid()
      modifies this
      ensures Valid() && repr == old(repr)
      ensures Tree() == if k in old(entries) then old(Tree()) else Dict(old(Tree()).entries[k := Text(s)])
    {
      if k !in entries {
        entries := entries[k := Str(s)];
      }
    }

    /** One round of the loop over the mother's items. */
    method SetDefault(mother: Configuration, k: string) returns (ok: bool)
      requires Valid() && mother.Valid() && repr !! mother.repr && k in mother.entries
      modifies repr
      ensures Valid() && old(repr) <= repr && fresh(repr - old(repr))
      ensures Round(old(Tree()), old(mother.Tree()), k, ok, Tree())
      decreases mother.repr, 0
    {
      ghost var was, m := Tree(), mother.Tree();
      assert m.entries[k] == mother.Value(k);
      match mother.entries[k]
      case Str(s) =>
        SetString(k, s);
        KeptOrSet(was, m, k, s);
        return true;
      case Node(below) =>
        assert mother.Below(below) && m.entries[k] == below.Tree();
        var e := Get(k);
        if e.Str? {
          return false;
        }
        ok := SetBelow(k, below);
        Descended(was, m, k, ok, Tree());
    }

    method SetBelow(k: string, m: Configuration) returns (ok: bool)
      requires Valid() && m.Valid() && repr !! m.repr && k in entries && entries[k].Node?
      modifies repr
      ensures Valid() && old(repr) <= repr && fresh(repr - old(repr))
      ensures var d := Defaulted(old(Value(k)), old(m.Tree()));
              ok == d.Some? && (ok ==> Tree() == Dict(old(Tree()).entries[k := d.value]))
      decreases m.repr, 2
    {
      var c := entries[k].c;
      assert Below(c);
      ok := c.SetDefaultEntries(m);
      repr := repr + c.repr;
      Rejoined(k);
    }

    /** Below one entry a tree has changed and grown: the rest stands, and all of it is a tree again. */
    twostate lemma Rejoined(k: string)
      requires old(Valid()) && k in old(entries) && old(entries)[k].Node? && entries == old(entries)
      requires var c := old(entries)[k].c;
               && c.Valid() && fresh(c.repr - old(c.repr)) && old(c.repr) <= c.repr && repr == old(repr) + c.repr
               && forall d | d in old(repr) && d != this && d !in old(c.repr) :: unchanged(d)
      ensures Valid() && Tree() == Dict(old(Tree()).entries[k := entries[k].c.Tree()])
    {
      var c := entries[k].c;
      Siblings(k);
      forall j | j in entries && j != k && entries[j].Node?
        ensures Below(entries[j].c) && entries[j].c.repr !! c.repr && Value(j) == old(Value(j))
      {
        assert old(Apart(entries[j].c, c));
      }
      assert Below(c);
      assert Tree().entries == old(Tree()).entries[k := c.Tree()];
    }

    /** A sibling's dictionary, with none of the dictionaries of `c`. */
    ghost predicate Apart(d: Configuration, c: Configuration)
      reads this, repr
    {
      this in repr && d in repr && c in repr && Below(d) && d !in c.repr && d.repr !! c.repr
    }

    twostate lemma Siblings(k: string)
      requires old(Valid()) && k in old(entries) && old(entries)[k].Node?
      ensures old(Below(entries[k].c))
      ensures forall j | j in old(entries) && j != k && old(entries)[j].Node? :: old(Apart(entries[j].c, entries[k].c))
    {
      assert old(Below(entries[k].c));
      forall j | j in old(entries) && j != k && old(entries)[j].Node? ensures old(Apart(entries[j].c, entries[k].c)) {
        assert old(Below(entries[j].c));
        assert old(entries[j].c.Valid());
      }
    }

    /** `set_default_entries`; `ok` is false where the original raises because a string lacks that method. */
    method SetDefaultEntries(mother: Configuration) returns (ok: bool)
      requires Valid() && mother.Valid() && repr !! mother.repr
      modifies repr
      ensures Valid() && old(repr) <= repr && fresh(repr - old(repr))
      ensures mother.Valid() && mother.repr == old(mother.repr) && mother.Tree() == old(mother.Tree())
      ensures repr !! mother.repr
      ensures var d := Defaulted(old(Tree()), old(mother.Tree()));
              ok == d.Some? && (ok ==> Tree() == d.value)
      decreases mother.repr, 1
    {
      ghost var was, m := Tree(), mother.Tree();
      var todo := mother.entries.Keys;
      while todo != {}
        invariant Valid() && old(repr) <= repr && fresh(repr - old(repr))
        invariant todo <= mother.entries.Keys
        invariant Progress(was, m, todo, Tree())
      {
        var k :| k in todo;
        ghost var before := Tree();
        ok := SetDefault(mother, k);
        AllRounds(was, m, todo, before, k, ok, Tree());
        if !ok {
          return;
        }
        todo := todo - {k};
      }
      Finished(was, m, Tree());
      ok := true;
    }
  }

  /** Separate trees, none sharing a dictionary with another or with the mother; `all` holds every board's dictionaries. */
  ghost predicate Separate(boards: seq<Configuration>, mother: Configuration, all: set<Configuration>)
    reads mother, mother.repr, boards, all
  {
    && mother.Valid() && mother.repr !! all
    && (forall i | 0 <= i < |boards| :: boards[i].repr <= all && boards[i].Valid())
    && (forall i, j | 0 <= i < j < |boards| :: boards[i].repr !! boards[j].repr)
  }

  /** The board loop: every board is filled from the same mother, and filling one leaves the others alone. */
  method FillBoards(boards: seq<Configuration>, mother: Configuration, ghost all: set<Configuration>) returns (ok: bool)
    requires Separate(boards, mother, all)
    modifies all
    ensures mother.Valid() && mother.Tree() == old(mother.Tree())
    ensures ok ==> forall i | 0 <= i < |boards| :: boards[i].Valid() && boards[i].repr !! mother.repr
    ensures ok ==> forall i, j | 0 <= i < j < |boards| :: boards[i].repr !! boards[j].repr
    ensures ok ==> forall i | 0 <= i < |boards| :: Some(boards[i].Tree()) == Defaulted(old(boards[i].Tree()), old(mother.Tree()))
    ensures !ok ==> exists i :: 0 <= i < |boards| && Defaulted(old(boards[i].Tree()), old(mother.Tree())) == None
  {
    var i := 0;
    ok := true;
    while i < |boards|
      invariant i <= |boards|
      invariant mother.Valid() && mother.repr == old(mother.repr) && mother.Tree() == old(mother.Tree())
      invariant forall j | 0 <= j < i :: boards[j].Valid() && fresh(boards[j].repr - old(boards[j].repr))
      invariant forall j, k | 0 <= j < k < |boards| :: boards[j].repr !! boards[k].repr
      invariant forall j | 0 <= j < i :: Some(boards[j].Tree()) == Defaulted(old(boards[j].Tree()), old(mother.Tree()))
      invariant forall j | i <= j < |boards| :: unchanged(old(boards[j].repr))
      modifies all
    {
      ok := boards[i].SetDefaultEntries(mother);
      if !ok { return; }
      i := i + 1;
    }
  }
}
