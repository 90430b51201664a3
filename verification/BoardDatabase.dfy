/** How update_boarddb.py lets boards and their options inherit from family and platform. */
module BoardDatabase {
  import opened Bytes
  import opened ConfigTree

  // ----- any chain of levels -----

  /** Nearest level first, each filled from all the farther ones. */
  function Chained(levels: seq<Config>): Option<Config>
    requires levels != []
    decreases |levels|
  {
    if |levels| == 1 then Some(levels[0])
    else
      match Chained(levels[1..])
      case None => None
      case Some(rest) => if rest.Dict? then Defaulted(levels[0], rest) else None
  }

  /** The string the nearest level that knows the path has there. */
  function Nearest(levels: seq<Config>, path: seq<string>): Option<string> {
    if levels == [] then None
    else if At(levels[0], path).Some? then Leaf(levels[0], path)
    else Nearest(levels[1..], path)
  }

  lemma {:induction false} NearestWins(levels: seq<Config>, path: seq<string>)
    requires levels != [] && Chained(levels).Some?
    ensures Leaf(Chained(levels).value, path) == Nearest(levels, path)
    ensures At(Chained(levels).value, path).Some? <==> exists c :: c in levels && At(c, path).Some?
    decreases |levels|
  {
    if |levels| == 1 {
      assert levels[0] in levels;
    } else {
      var rest := Chained(levels[1..]).value;
      NearestWins(levels[1..], path);
      EveryPath(levels[0], rest, path);
      assert forall c :: c in levels <==> c == levels[0] || c in levels[1..];
    }
  }

  // ----- the three inheritance steps -----

  /** `del` of one key. */
  function Without(c: Config, k: string): Config
    requires c.Dict?
  {
    Dict(map j | j in c.entries && j != k :: c.entries[j])
  }

  /** The upload methods that bring a build section of their own; `None` where one is not a dictionary. */
  function BuildMethods(u: Config): Option<Config> {
    if u.Text? || exists k :: k in u.entries && u.entries[k].Text? then None
    else Some(Dict(map k | k in u.entries && "build" in u.entries[k].entries :: u.entries[k]))
  }

  /** The copy of a family its boards inherit from; `None` where the original raises. */
  function HandedDown(fam: Config): Option<Config>
    requires fam.Dict?
  {
    var menu := Opened(fam, "menu").entries["menu"];
    if menu.Text? || "pnum" !in menu.entries then None
    else
      var rest := Opened(Without(menu, "pnum"), "upload_method");
      match BuildMethods(rest.entries["upload_method"])
      case None => None
      case Some(u) => Some(Dict(fam.entries["menu" := Dict(rest.entries["upload_method" := u])]))
  }

  /**
   * A board with its floating-point configuration noted, computed from its build section, which reading it
   * brings into being; `None` where the build section is a string and the original raises.
   */
  function Prepared(board: Config, fpconf: string): Option<Config>
    requires board.Dict?
  {
    var b := Opened(board, "build");
    if b.entries["build"].Text? then None else Some(Dict(b.entries["_fpconf" := Text(fpconf)]))
  }

  function Inherited(fam: Config, platform: Config): Option<Config>
    requires platform.Dict?
  {
    match Defaulted(fam, platform)
    case None => None
    case Some(f) => HandedDown(f)
  }

  function BoardOf(board: Config, fpconf: string, fam: Config, platform: Config): Option<Config>
    requires board.Dict? && platform.Dict?
  {
    match (Inherited(fam, platform), Prepared(board, fpconf))
    case (Some(h), Some(b)) => Defaulted(b, h)
    case _ => None
  }

  /** One option of a menu of a finished board. */
  function OptionOf(board: Config, option: Config): Option<Config>
    requires board.Dict?
  {
    Defaulted(option, Without(board, "menu"))
  }

  // ----- nearest level wins -----

  /** A path that does not lead into the menus. */
  predicate Plain(path: seq<string>) {
    path != [] && path[0] != "menu"
  }

  lemma HandedDownKeeps(fam: Config, path: seq<string>)
    requires fam.Dict? && HandedDown(fam).Some? && Plain(path)
    ensures At(HandedDown(fam).value, path) == At(fam, path)
  {
  }

  lemma PreparedKeeps(board: Config, fpconf: string, path: seq<string>)
    requires board.Dict? && Prepared(board, fpconf).Some? && path != []
    ensures var p := Prepared(board, fpconf).value;
            if path[0] == "_fpconf" then At(p, path) == if |path| == 1 then Some(Text(fpconf)) else None
            else if path == ["build"] then At(p, path).Some? && At(p, path).value.Dict?
            else At(p, path) == At(board, path)
  {
    if path[0] == "build" && path != ["build"] { assert path[1..] != []; }
  }

  /** What a finished board has at a path outside its menus. */
  function BoardSetting(board: Config, fpconf: string, fam: Config, platform: Config, path: seq<string>): Option<string>
    requires path != []
  {
    if path[0] == "_fpconf" then (if |path| == 1 then Some(fpconf) else None)
    else if path == ["build"] then None
    else Nearest([board, fam, platform], path)
  }

  lemma FromFamily(fam: Config, platform: Config, path: seq<string>)
    requires platform.Dict? && Defaulted(fam, platform).Some?
    ensures Leaf(Defaulted(fam, platform).value, path) == Nearest([fam, platform], path)
    ensures At(Defaulted(fam, platform).value, path).Some? <==> At(fam, path).Some? || At(platform, path).Some?
  {
    EveryPath(fam, platform, path);
    assert [fam, platform][1..] == [platform];
    assert Nearest([platform], path) == Leaf(platform, path);
  }

  /**
   * Every setting of a board outside its menus is the one of the nearest level that has it, except for the
   * floating-point configuration, which is noted in the board; its build section is always a dictionary.
   */
  lemma BoardNearest(board: Config, fpconf: string, fam: Config, platform: Config, path: seq<string>)
    requires board.Dict? && platform.Dict? && BoardOf(board, fpconf, fam, platform).Some? && Plain(path)
    ensures Leaf(BoardOf(board, fpconf, fam, platform).value, path) == BoardSetting(board, fpconf, fam, platform, path)
  {
    var f, p := Defaulted(fam, platform).value, Prepared(board, fpconf).value;
    var h := HandedDown(f).value;
    FromFamily(fam, platform, path);
    HandedDownKeeps(f, path);
    PreparedKeeps(board, fpconf, path);
    EveryPath(p, h, path);
    assert [board, fam, platform][1..] == [fam, platform];
    if path[0] == "_fpconf" && |path| > 1 {
      BelowText(p, h, path);
    }
  }

  lemma OneKey(c: Config, k: string)
    ensures At(c, [k]) == if c.Dict? && k in c.entries then Some(c.entries[k]) else None
  {
  }

  lemma TwoKeys(c: Config, j: string, k: string)
    requires c.Dict? && j in c.entries
    ensures At(c, [j, k]) == At(c.entries[j], [k])
  {
    assert [j, k][1..] == [k];
  }

  /** Below a string of the receiver, a successful merge puts nothing. */
  lemma BelowText(a: Config, m: Config, path: seq<string>)
    requires m.Dict? && Defaulted(a, m).Some? && |path| > 1
    requires At(a, path[..1]).Some? && At(a, path[..1]).value.Text?
    ensures At(m, path).None?
  {
    NoClash(a, m, path[..1]);
    OneKey(m, path[0]);
    assert path[..1] == [path[0]];
    if path[0] in m.entries { OnlyRoot(m.entries[path[0]], path[1..]); }
  }

  /** Likewise for an option of a board's menus, with the option itself as the nearest level of all. */
  lemma OptionNearest(option: Config, board: Config, fpconf: string, fam: Config, platform: Config, path: seq<string>)
    requires board.Dict? && platform.Dict? && BoardOf(board, fpconf, fam, platform).Some? && Plain(path)
    requires OptionOf(BoardOf(board, fpconf, fam, platform).value, option).Some?
    ensures Leaf(OptionOf(BoardOf(board, fpconf, fam, platform).value, option).value, path)
            == if At(option, path).Some? then Leaf(option, path) else BoardSetting(board, fpconf, fam, platform, path)
  {
    var b := BoardOf(board, fpconf, fam, platform).value;
    BoardNearest(board, fpconf, fam, platform, path);
    EveryPath(option, Without(b, "menu"), path);
    assert At(Without(b, "menu"), path) == At(b, path);
  }

  /** An option inherits no menus: nothing nests without end. */
  lemma NoNesting(option: Config, board: Config, path: seq<string>)
    requires board.Dict? && OptionOf(board, option).Some? && path != [] && path[0] == "menu"
    ensures Leaf(OptionOf(board, option).value, path) == Leaf(option, path)
  {
    EveryPath(option, Without(board, "menu"), path);
  }

  lemma Down(c: Config, path: seq<string>)
    requires c.Dict? && path != [] && path[0] in c.entries
    ensures At(c, path) == At(c.entries[path[0]], path[1..])
  {
  }

  lemma MethodKept(all: Config, kept: Config, path: seq<string>)
    requires BuildMethods(all) == Some(kept) && path != []
    ensures At(kept, path) == if At(all, [path[0], "build"]).None? then None else At(all, path)
  {
    if path[0] in all.entries {
      Down(all, [path[0], "build"]);
    }
  }

  /** What becomes of a menu on its way down. */
  ghost predicate MenuStep(menu: Config, handed: Config) {
    && menu.Dict? && handed.Dict?
    && var rest := Opened(Without(menu, "pnum"), "upload_method");
       BuildMethods(rest.entries["upload_method"]).Some?
       && handed == Dict(rest.entries["upload_method" := BuildMethods(rest.entries["upload_method"]).value])
  }

  lemma MenuKept(menu: Config, handed: Config, path: seq<string>)
    requires MenuStep(menu, handed) && |path| >= 2
    ensures var dropped := path[0] == "pnum" || (path[0] == "upload_method" && At(menu, [path[0], path[1], "build"]).None?);
            At(handed, path) == if dropped then None else At(menu, path)
  {
    if path[0] in menu.entries && path[0] != "pnum" {
      Down(menu, path);
      Down(handed, path);
      if path[0] == "upload_method" {
        Down(menu, [path[0], path[1], "build"]);
        assert [path[0], path[1], "build"][1..] == [path[1], "build"];
        MethodKept(menu.entries[path[0]], handed.entries[path[0]], path[1..]);
      }
    }
  }

  /** A board takes menu options from its family: all but the list of boards, and upload methods only with a build section. */
  lemma MenuInherited(fam: Config, path: seq<string>)
    requires fam.Dict? && HandedDown(fam).Some? && |path| >= 3 && path[0] == "menu"
    ensures var dropped := path[1] == "pnum" || (path[1] == "upload_method" && At(fam, path[..3] + ["build"]).None?);
            At(HandedDown(fam).value, path) == if dropped then None else At(fam, path)
  {
    var menu, handed := fam.entries["menu"], HandedDown(fam).value.entries["menu"];
    var build := path[..3] + ["build"];
    assert build[1..] == [path[1], path[2], "build"];
    Down(fam, path);
    Down(HandedDown(fam).value, path);
    Down(fam, build);
    MenuKept(menu, handed, path[1..]);
  }

  /** A menu entry the family keeps to itself. */
  predicate Dropped(levels: seq<Config>, path: seq<string>)
    requires |path| >= 3
  {
    path[1] == "pnum" || (path[1] == "upload_method" && forall c | c in levels :: At(c, path[..3] + ["build"]).None?)
  }

  /** The menu options of a finished board: the nearest level, without what the family keeps to itself. */
  lemma BoardMenus(board: Config, fpconf: string, fam: Config, platform: Config, path: seq<string>)
    requires board.Dict? && platform.Dict? && BoardOf(board, fpconf, fam, platform).Some?
    requires |path| >= 3 && path[0] == "menu"
    ensures Leaf(BoardOf(board, fpconf, fam, platform).value, path)
            == if At(board, path).None? && Dropped([fam, platform], path) then None
               else Nearest([board, fam, platform], path)
  {
    var f, p := Defaulted(fam, platform).value, Prepared(board, fpconf).value;
    FromFamily(fam, platform, path);
    FromFamily(fam, platform, path[..3] + ["build"]);
    MenuInherited(f, path);
    PreparedKeeps(board, fpconf, path);
    EveryPath(p, HandedDown(f).value, path);
    assert [board, fam, platform][1..] == [fam, platform];
  }

  /** A family can be handed down exactly when it lists boards and none of its upload methods is a string. */
  lemma HandedDownExactly(fam: Config)
    requires fam.Dict?
    ensures HandedDown(fam).Some?
       <==> At(fam, ["menu", "pnum"]).Some? && Leaf(fam, ["menu", "upload_method"]).None?
            && forall k: string :: Leaf(fam, ["menu", "upload_method", k]).None?
  {
    if "menu" in fam.entries {
      var menu := fam.entries["menu"];
      TwoKeys(fam, "menu", "pnum");
      OneKey(menu, "pnum");
      if menu.Dict? && "pnum" in menu.entries {
        TwoKeys(fam, "menu", "upload_method");
        OneKey(menu, "upload_method");
        MethodsExactly(fam, menu);
      }
    }
  }

  lemma MethodsExactly(fam: Config, menu: Config)
    requires fam.Dict? && "menu" in fam.entries && fam.entries["menu"] == menu && menu.Dict? && "pnum" in menu.entries
    ensures HandedDown(fam).Some?
       <==> ("upload_method" in menu.entries ==>
               menu.entries["upload_method"].Dict? && forall k: string :: Leaf(fam, ["menu", "upload_method", k]).None?)
    ensures "upload_method" !in menu.entries ==> forall k: string :: Leaf(fam, ["menu", "upload_method", k]).None?
  {
    forall k: string ensures At(fam, ["menu", "upload_method", k]) == At(menu, ["upload_method", k]) {
      assert ["menu", "upload_method", k][1..] == ["upload_method", k];
    }
    if "upload_method" in menu.entries {
      var u := menu.entries["upload_method"];
      forall k: string
        ensures Leaf(fam, ["menu", "upload_method", k]).Some? <==> u.Dict? && k in u.entries && u.entries[k].Text?
      {
        TwoKeys(menu, "upload_method", k);
        OneKey(u, k);
      }
      assert BuildMethods(u).Some? <==> u.Dict? && forall k | k in u.entries :: Leaf(fam, ["menu", "upload_method", k]).None?;
    } else {
      assert BuildMethods(EMPTY).Some?;
    }
  }

  /**
   * A board comes out exactly when nothing raises on the way: family and platform merge, the family can be handed
   * down, the board's build section is no string, and the prepared board merges with what is handed down.
   */
  lemma BoardExactly(board: Config, fpconf: string, fam: Config, platform: Config)
    requires board.Dict? && platform.Dict?
    ensures Prepared(board, fpconf).Some? <==> Leaf(board, ["build"]).None?
    ensures BoardOf(board, fpconf, fam, platform).Some?
       <==> Compatible(fam, platform) && Leaf(board, ["build"]).None?
            && var f := Defaulted(fam, platform);
               f.Some? && HandedDown(f.value).Some? && Compatible(Prepared(board, fpconf).value, HandedDown(f.value).value)
  {
    OneKey(board, "build");
    SucceedsExactly(fam, platform);
    var f := Defaulted(fam, platform);
    if f.Some? && HandedDown(f.value).Some? && Prepared(board, fpconf).Some? {
      SucceedsExactly(Prepared(board, fpconf).value, HandedDown(f.value).value);
    }
  }
}
