/** Configuration trees as values: what `Configuration.set_default_entries` makes of two of them. */
module ConfigTree {
  import opened Bytes

  /** `Text` for a string entry, `Dict` for a nested configuration. */
  datatype Config = Text(s: string) | Dict(entries: map<string, Config>)

  const EMPTY := Dict(map[])

  /** What stands at the end of a path of keys. */
  function At(c: Config, path: seq<string>): Option<Config> {
    if path == [] then Some(c)
    else if c.Dict? && path[0] in c.entries then At(c.entries[path[0]], path[1..])
    else None
  }

  /** The string at a path, if a string stands there. */
  function Leaf(c: Config, path: seq<string>): Option<string> {
    match At(c, path)
    case Some(Text(s)) => Some(s)
    case _ => None
  }

  /** The receiver has a string where the mother has a dictionary: a string has no `set_default_entries`. */
  ghost predicate Clash(a: Config, m: Config, path: seq<string>) {
    At(a, path).Some? && At(m, path).Some? && At(a, path).value.Text? && At(m, path).value.Dict?
  }

  ghost predicate Compatible(a: Config, m: Config) {
    forall path: seq<string> :: !Clash(a, m, path)
  }

  /**
   * `a.set_default_entries(m)`: the receiver afterwards. A missing sub-dictionary is created empty and filled;
   * an entry that is there is kept; `None` stands for the error.
   */
  function Defaulted(a: Config, m: Config): Option<Config>
    requires m.Dict?
    decreases m
  {
    if a.Text? then None
    else if exists k :: k in m.entries && Entry(a, m, k).None? then None
    else Some(Dict(map k | k in a.entries.Keys + m.entries.Keys :: if k in m.entries then Entry(a, m, k).value else a.entries[k]))
  }

  /** What becomes of the receiver's entry for one key of the mother. */
  function Entry(a: Config, m: Config, k: string): Option<Config>
    requires a.Dict? && m.Dict? && k in m.entries
    decreases m, 0
  {
    if m.entries[k].Dict? then Defaulted(if k in a.entries then a.entries[k] else EMPTY, m.entries[k])
    else Some(if k in a.entries then a.entries[k] else m.entries[k])
  }

  /** Half-way: the keys outside `todo` have been looked at. */
  ghost predicate Progress(a: Config, m: Config, todo: set<string>, now: Config) {
    && a.Dict? && m.Dict? && now.Dict? && todo <= m.entries.Keys
    && now.entries.Keys == a.entries.Keys + (m.entries.Keys - todo)
    && (forall k | k in now.entries ::
          if k in m.entries && k !in todo then Entry(a, m, k) == Some(now.entries[k]) else now.entries[k] == a.entries[k])
  }

  /** What one round of the loop makes of the receiver. */
  ghost predicate Round(a: Config, m: Config, k: string, ok: bool, now: Config) {
    && a.Dict? && m.Dict? && k in m.entries
    && ok == Entry(a, m, k).Some?
    && (ok ==> now == Dict(a.entries[k := Entry(a, m, k).value]))
  }

  /** The receiver with something under key `k`, an empty dictionary if there was nothing. */
  function Opened(a: Config, k: string): Config
    requires a.Dict?
  {
    if k in a.entries then a else Dict(a.entries[k := EMPTY])
  }

  lemma KeptOrSet(a: Config, m: Config, k: string, s: string)
    requires a.Dict? && m.Dict? && k in m.entries && m.entries[k] == Text(s)
    ensures Round(a, m, k, true, if k in a.entries then a else Dict(a.entries[k := Text(s)]))
  {
    if k in a.entries { assert a.entries[k := a.entries[k]] == a.entries; }
  }

  lemma Descended(a: Config, m: Config, k: string, ok: bool, now: Config)
    requires a.Dict? && m.Dict? && k in m.entries && m.entries[k].Dict?
    requires var d := Defaulted(Opened(a, k).entries[k], m.entries[k]);
             ok == d.Some? && (ok ==> now == Dict(Opened(a, k).entries[k := d.value]))
    ensures Round(a, m, k, ok, now)
  {
    if k !in a.entries && ok {
      assert a.entries[k := EMPTY][k := Entry(a, m, k).value] == a.entries[k := Entry(a, m, k).value];
    }
  }

  lemma AllRounds(a: Config, m: Config, todo: set<string>, before: Config, k: string, ok: bool, now: Config)
    requires Progress(a, m, todo, before) && k in todo && Round(before, m, k, ok, now)
    ensures ok ==> Progress(a, m, todo - {k}, now)
    ensures !ok ==> Defaulted(a, m).None?
  {
    assert Entry(before, m, k) == Entry(a, m, k);
  }

  lemma Finished(a: Config, m: Config, now: Config)
    requires Progress(a, m, {}, now)
    ensures Defaulted(a, m) == Some(now)
  {
    forall k | k in m.entries ensures Entry(a, m, k) == Some(now.entries[k]) {}
    assert Defaulted(a, m).Some?;
    assert Defaulted(a, m).value.entries == now.entries;
  }

  // ----- laws -----

  /** Filling an empty configuration copies the mother. */
  lemma {:induction false} CopyOfMother(m: Config)
    requires m.Dict?
    ensures Defaulted(EMPTY, m) == Some(m)
    decreases m
  {
    forall k | k in m.entries ensures Entry(EMPTY, m, k) == Some(m.entries[k]) {
      if m.entries[k].Dict? { CopyOfMother(m.entries[k]); }
    }
    assert Defaulted(EMPTY, m).Some?;
    assert Defaulted(EMPTY, m).value.entries == m.entries;
  }

  /**
   * Every path of the result: what the receiver has there stays, strings and dictionaries alike; what it does
   * not have comes from the mother.
   */
  lemma {:induction false} EveryPath(a: Config, m: Config, path: seq<string>)
    requires m.Dict? && Defaulted(a, m).Some?
    ensures var r := Defaulted(a, m).value;
            && (At(r, path).Some? <==> At(a, path).Some? || At(m, path).Some?)
            && Leaf(r, path) == (if At(a, path).Some? then Leaf(a, path) else Leaf(m, path))
    decreases |path|
  {
    if path != [] {
      var k := path[0];
      if k in m.entries {
        var e := Entry(a, m, k);
        assert e.Some?;
        if m.entries[k].Dict? {
          if k in a.entries {
            EveryPath(a.entries[k], m.entries[k], path[1..]);
          } else {
            CopyOfMother(m.entries[k]);
          }
        } else if k in a.entries {
          OnlyRoot(m.entries[k], path[1..]);
        }
      }
    }
  }

  lemma OnlyRoot(c: Config, path: seq<string>)
    requires c.Text?
    ensures At(c, path).Some? <==> path == []
  {
  }

  /** The call succeeds exactly when nowhere a string of the receiver meets a dictionary of the mother. */
  lemma {:induction false} SucceedsExactly(a: Config, m: Config)
    requires m.Dict?
    ensures Defaulted(a, m).Some? <==> Compatible(a, m)
    decreases m
  {
    if a.Text? {
      assert Clash(a, m, []);
    } else {
      if Defaulted(a, m).None? {
        var k :| k in m.entries && Entry(a, m, k).None?;
        if k in a.entries {
          SucceedsExactly(a.entries[k], m.entries[k]);
          var path :| Clash(a.entries[k], m.entries[k], path);
          assert ([k] + path)[1..] == path;
          assert Clash(a, m, [k] + path);
        } else {
          CopyOfMother(m.entries[k]);
        }
      } else {
        forall path: seq<string> ensures !Clash(a, m, path) {
          NoClash(a, m, path);
        }
      }
    }
  }

  lemma {:induction false} NoClash(a: Config, m: Config, path: seq<string>)
    requires m.Dict? && Defaulted(a, m).Some?
    ensures !Clash(a, m, path)
    decreases |path|
  {
    if path != [] && path[0] in m.entries && path[0] in a.entries {
      var k := path[0];
      assert Entry(a, m, k).Some?;
      if m.entries[k].Dict? {
        NoClash(a.entries[k], m.entries[k], path[1..]);
      } else {
        OnlyRoot(m.entries[k], path[1..]);
      }
    }
  }

  lemma {:induction false} Idempotent(a: Config, m: Config)
    requires m.Dict? && Defaulted(a, m).Some?
    ensures var r := Defaulted(a, m).value; Defaulted(r, m) == Some(r)
    decreases m
  {
    var r := Defaulted(a, m).value;
    forall k | k in m.entries ensures Entry(r, m, k) == Some(r.entries[k]) {
      assert Entry(a, m, k).Some?;
      if m.entries[k].Dict? {
        Idempotent(if k in a.entries then a.entries[k] else EMPTY, m.entries[k]);
      }
    }
    assert Defaulted(r, m).Some?;
    assert Defaulted(r, m).value.entries == r.entries;
  }

  /** Filling from two mothers in turn is filling from the first one filled from the second, errors included. */
  lemma {:induction false} Associative(a: Config, b: Config, c: Config)
    requires a.Dict? && b.Dict? && c.Dict? && Defaulted(a, b).Some? && Defaulted(b, c).Some?
    ensures Defaulted(Defaulted(a, b).value, c) == Defaulted(a, Defaulted(b, c).value)
    decreases c
  {
    var ab, bc := Defaulted(a, b).value, Defaulted(b, c).value;
    forall k | k in bc.entries
      ensures Entry(a, bc, k) == if k in c.entries then Entry(ab, c, k) else Some(ab.entries[k])
    {
      AssociativeAt(a, b, c, k);
    }
    assert forall k | k in c.entries :: k in bc.entries;
    if Defaulted(ab, c).Some? && Defaulted(a, bc).Some? {
      assert Defaulted(ab, c).value.entries == Defaulted(a, bc).value.entries;
    }
  }

  lemma {:induction false} AssociativeAt(a: Config, b: Config, c: Config, k: string)
    requires a.Dict? && b.Dict? && c.Dict? && Defaulted(a, b).Some? && Defaulted(b, c).Some?
    requires k in Defaulted(b, c).value.entries
    ensures var (ab, bc) := (Defaulted(a, b).value, Defaulted(b, c).value);
            Entry(a, bc, k) == if k in c.entries then Entry(ab, c, k) else Some(ab.entries[k])
    decreases c, 0
  {
    if k in b.entries { assert Entry(a, b, k).Some?; }
    if k in c.entries {
      assert Entry(b, c, k).Some?;
      if c.entries[k].Dict? {
        var x := if k in a.entries then a.entries[k] else EMPTY;
        if k in b.entries {
          assert Defaulted(b.entries[k], c.entries[k]).Some?;
          assert Defaulted(x, b.entries[k]).Some?;
          Associative(x, b.entries[k], c.entries[k]);
        } else {
          CopyOfMother(c.entries[k]);
        }
      }
    }
  }
}
