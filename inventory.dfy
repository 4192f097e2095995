/**
 * Module discovery and per-module mount rules (src/core/inventory.rs): the
 * legacy `mount_rules.txt` lines and the JSON rule layers are merged into a
 * path-to-mode map, `GetMode` resolves the mode of one relative path, and
 * `Scan` lists the modules of a directory.
 */
module Inventory {
  import opened Wrappers
  import opened Paths
  import opened Order
  import opened Kernel
  import opened Settings

  datatype MountMode = Overlay | HymoFs | Magic | Ignore | Auto

  /** `MountMode::default()`. */
  const DefaultMode: MountMode := Auto

  datatype ModuleRules = ModuleRules(defaultMode: MountMode, paths: map<string, MountMode>)

  /** `ModuleRules::default()`. */
  const EmptyRules: ModuleRules := ModuleRules(DefaultMode, map[])

  // ---------------------------------------------------------------------
  // Text handling used by the legacy rule file

  /** `char::is_whitespace`: the Unicode White_Space property. */
  predicate IsWhitespace(c: char) {
    ('\t' <= c <= '\r') || c == ' ' || c == '\U{85}' || c == '\U{A0}' || c == '\U{1680}'
    || ('\U{2000}' <= c <= '\U{200A}') || c == '\U{2028}' || c == '\U{2029}'
    || c == '\U{202F}' || c == '\U{205F}' || c == '\U{3000}'
  }

  /** `str::trim_start`. */
  function TrimStart(s: string): (r: string)
    ensures |r| <= |s| && r == s[|s| - |r|..]
    ensures r == [] || !IsWhitespace(r[0])
    ensures forall i :: 0 <= i < |s| - |r| ==> IsWhitespace(s[i])
  {
    if |s| > 0 && IsWhitespace(s[0]) then TrimStart(s[1..]) else s
  }

  /** `str::trim_end`. */
  function TrimEnd(s: string): (r: string)
    ensures |r| <= |s| && r == s[..|r|]
    ensures r == [] || !IsWhitespace(r[|r| - 1])
    ensures forall i :: |r| <= i < |s| ==> IsWhitespace(s[i])
  {
    if |s| > 0 && IsWhitespace(s[|s| - 1]) then TrimEnd(s[..|s| - 1]) else s
  }

  /** `str::trim`. */
  function Trim(s: string): string {
    TrimEnd(TrimStart(s))
  }

  /** Length of the leading run of non-whitespace characters. */
  function WordLength(s: string): (n: nat)
    ensures n <= |s|
    ensures forall i :: 0 <= i < n ==> !IsWhitespace(s[i])
    ensures n < |s| ==> IsWhitespace(s[n])
  {
    if s == [] || IsWhitespace(s[0]) then 0 else 1 + WordLength(s[1..])
  }

  /** `str::split_whitespace`: the maximal non-empty whitespace-free pieces, in order. */
  function Words(s: string): seq<string>
    decreases |s|
  {
    var t := TrimStart(s);
    if t == [] then []
    else
      var n := WordLength(t);
      [t[..n]] + Words(t[n..])
  }

  /** Every piece `Words` gives is a word: non-empty and free of whitespace. */
  lemma {:induction false} WordsAreWords(s: string)
    ensures forall k :: 0 <= k < |Words(s)| ==> IsWord(Words(s)[k])
    decreases |s|
  {
    var t := TrimStart(s);
    if t != [] {
      var n := WordLength(t);
      var rest := Words(t[n..]);
      WordsAreWords(t[n..]);
      assert IsWord(t[..n]);
      var r := Words(s);
      assert r == [t[..n]] + rest;
      forall k | 0 <= k < |r|
        ensures IsWord(r[k])
      {
        if k > 0 {
          assert r[k] == rest[k - 1];
        }
      }
    }
  }

  /** A non-empty piece without whitespace. */
  predicate IsWord(w: string) {
    w != [] && forall i :: 0 <= i < |w| ==> !IsWhitespace(w[i])
  }

  /**
   * `str::lines`: the pieces between '\n's, without the empty piece after a
   * final '\n'. (The '\r' of a "\r\n" ending is whitespace, which the trim
   * applied to every line removes.)
   */
  function Lines(content: string): seq<string> {
    var pieces := Split(content, '\n');
    if pieces[|pieces| - 1] == "" then pieces[..|pieces| - 1] else pieces
  }

  /**
   * `to_lowercase` as far as the keyword match can tell: ASCII capitals and
   * the Kelvin sign U+212A (whose lower case is the ASCII 'k') are lowered.
   * Every other character is kept; the true lower case of any other
   * non-ASCII character is non-ASCII as well, so it can no more be part of a
   * keyword than the character itself.
   */
  function LowerChar(c: char): (r: char)
    ensures 'A' <= c <= 'Z' ==> r == (c as int + 32) as char
    ensures c == '\U{212A}' ==> r == 'k'
    ensures !('A' <= c <= 'Z') && c != '\U{212A}' ==> r == c
  {
    if 'A' <= c <= 'Z' then (c as int + 32) as char
    else if c == '\U{212A}' then 'k'
    else c
  }

  function ToLower(s: string): (r: string)
    ensures |r| == |s|
    ensures forall i :: 0 <= i < |s| ==> r[i] == LowerChar(s[i])
  {
    if s == [] then []
    else [LowerChar(s[0])] + ToLower(s[1..])
  }

  lemma ToLowerIdempotent(s: string)
    ensures ToLower(ToLower(s)) == ToLower(s)
  {
    var once := ToLower(s);
    assert forall i :: 0 <= i < |once| ==> !('A' <= once[i] <= 'Z') && once[i] != '\U{212A}';
  }

  /** The mode keyword of a legacy rule line; unknown keywords give `Auto`. */
  function ParseModeKeyword(word: string): MountMode {
    var w := ToLower(word);
    if w == "overlay" then Overlay
    else if w == "hymo" || w == "hymofs" then HymoFs
    else if w == "magic" || w == "tmpfs" then Magic
    else if w == "ignore" || w == "skip" then Ignore
    else Auto
  }

  /** The keyword match does not depend on letter case. */
  lemma KeywordIgnoresCase(word: string)
    ensures ParseModeKeyword(word) == ParseModeKeyword(ToLower(word))
  {
    ToLowerIdempotent(word);
  }

  /** The Kelvin sign counts as a 'K': "S\U{212A}IP" is the `skip` keyword. */
  lemma KelvinSignKeyword()
    ensures ParseModeKeyword("S\U{212A}IP") == Ignore
    ensures ParseModeKeyword("\U{212A}") == Auto
  {
    assert ToLower("S\U{212A}IP") == "skip";
    assert ToLower("\U{212A}") == "k";
  }

  /**
   * One legacy line: blank lines, '#' comments and lines with fewer than two
   * words give nothing; otherwise the first word is the mode and the second
   * the path, stored without its leading slashes.
   */
  function ParseRuleLine(line: string): Option<(string, MountMode)> {
    var l := Trim(line);
    if l == [] || l[0] == '#' then None
    else
      var parts := Words(l);
      if |parts| >= 2 then Some((TrimLeading(parts[1], '/'), ParseModeKeyword(parts[0]))) else None
  }

  /**
   * A rule comes from a line exactly when it is neither blank nor a comment
   * and has two words or more; its mode is the first word's keyword and its
   * key the second word without leading '/', so never an absolute path.
   */
  lemma ParseRuleLineProperties(line: string)
    ensures var r := ParseRuleLine(line);
      var l := Trim(line);
      && (l == [] || l[0] == '#' ==> r.None?)
      && (|Words(l)| < 2 ==> r.None?)
      && (r.Some? ==> r.value.0 == [] || r.value.0[0] != '/')
      && (r.Some? ==> var w := Words(l);
            |w| >= 2 && r.value.1 == ParseModeKeyword(w[0]) && r.value.0 == TrimLeading(w[1], '/'))
      && (l != [] && l[0] != '#' && |Words(l)| >= 2 ==>
            r == Some((TrimLeading(Words(l)[1], '/'), ParseModeKeyword(Words(l)[0]))))
  {
    var l := Trim(line);
    if l != [] && l[0] != '#' {
      var parts := Words(l);
      if |parts| >= 2 {
        var key := TrimLeading(parts[1], '/');
        assert key == [] || key[0] != '/';
      }
    }
  }

  /** The parsed form of each line, in order. */
  function ParsedLines(lines: seq<string>): (r: seq<Option<(string, MountMode)>>)
    ensures |r| == |lines| && forall i :: 0 <= i < |lines| ==> r[i] == ParseRuleLine(lines[i])
  {
    seq(|lines|, i requires 0 <= i < |lines| => ParseRuleLine(lines[i]))
  }

  /** The map a sequence of parsed lines builds when each rule is inserted in turn. */
  function Assignments(entries: seq<Option<(string, MountMode)>>): map<string, MountMode>
    decreases |entries|
  {
    if entries == [] then map[]
    else
      var before := Assignments(entries[..|entries| - 1]);
      match entries[|entries| - 1]
      case None => before
      case Some((key, mode)) => before[key := mode]
  }

  /** The path map of the legacy rule file. */
  function LegacyPaths(lines: seq<string>): map<string, MountMode> {
    Assignments(ParsedLines(lines))
  }

  predicate RuleFor(entry: Option<(string, MountMode)>, key: string) {
    entry.Some? && entry.value.0 == key
  }

  /**
   * A key is in the map iff some entry is a rule for it, and its mode is the
   * mode of the LAST such entry.
   */
  lemma AssignmentsLastWins(entries: seq<Option<(string, MountMode)>>, key: string)
    ensures key in Assignments(entries) <==> exists i :: 0 <= i < |entries| && RuleFor(entries[i], key)
    ensures key in Assignments(entries) ==>
      exists i :: 0 <= i < |entries| && entries[i] == Some((key, Assignments(entries)[key]))
        && forall j :: i < j < |entries| ==> !RuleFor(entries[j], key)
  {
    AssignmentsKeys(entries, key);
    if key in Assignments(entries) {
      var i := AssignmentsLast(entries, key);
    }
  }

  lemma {:induction false} AssignmentsKeys(entries: seq<Option<(string, MountMode)>>, key: string)
    ensures key in Assignments(entries) <==> exists i :: 0 <= i < |entries| && RuleFor(entries[i], key)
    decreases |entries|
  {
    if entries != [] {
      var n := |entries| - 1;
      var init := entries[..n];
      AssignmentsKeys(init, key);
      if RuleFor(entries[n], key) {
        assert 0 <= n < |entries| && RuleFor(entries[n], key);
      } else {
        assert (key in Assignments(entries)) == (key in Assignments(init));
        if key in Assignments(init) {
          var i :| 0 <= i < |init| && RuleFor(init[i], key);
          assert entries[i] == init[i];
        }
        if exists i :: 0 <= i < |entries| && RuleFor(entries[i], key) {
          var i :| 0 <= i < |entries| && RuleFor(entries[i], key);
          assert i < n && init[i] == entries[i];
        }
      }
    }
  }

  lemma {:induction false} AssignmentsLast(entries: seq<Option<(string, MountMode)>>, key: string) returns (i: nat)
    requires key in Assignments(entries)
    ensures i < |entries| && entries[i] == Some((key, Assignments(entries)[key]))
    ensures forall j :: i < j < |entries| ==> !RuleFor(entries[j], key)
    decreases |entries|
  {
    var n := |entries| - 1;
    var init := entries[..n];
    if RuleFor(entries[n], key) {
      i := n;
    } else {
      assert key in Assignments(init) && Assignments(entries)[key] == Assignments(init)[key];
      i := AssignmentsLast(init, key);
      assert entries[i] == init[i];
      forall j | i < j < |entries|
        ensures !RuleFor(entries[j], key)
      {
        if j < n {
          assert entries[j] == init[j];
        }
      }
    }
  }

  /** For the legacy file: a path is ruled iff some line is a rule for it, and the last such line wins. */
  lemma LegacyPathsLastWins(lines: seq<string>, key: string)
    ensures key in LegacyPaths(lines) <==> exists i :: 0 <= i < |lines| && RuleFor(ParseRuleLine(lines[i]), key)
    ensures key in LegacyPaths(lines) ==>
      exists i :: 0 <= i < |lines| && ParseRuleLine(lines[i]) == Some((key, LegacyPaths(lines)[key]))
        && forall j :: i < j < |lines| ==> !RuleFor(ParseRuleLine(lines[j]), key)
  {
    var entries := ParsedLines(lines);
    AssignmentsLastWins(entries, key);
  }

  /** One rule layer on top of another: its default replaces, its keys override. */
  function Layered(base: ModuleRules, layer: Option<ModuleRules>): (r: ModuleRules)
    ensures layer.None? ==> r == base
    ensures layer.Some? ==> r.defaultMode == layer.value.defaultMode
    ensures forall k :: k in r.paths <==> k in base.paths || (layer.Some? && k in layer.value.paths)
    ensures forall k :: k in r.paths ==>
      r.paths[k] == if layer.Some? && k in layer.value.paths then layer.value.paths[k] else base.paths[k]
  {
    match layer
    case None => base
    case Some(l) => ModuleRules(l.defaultMode, base.paths + l.paths)
  }

  const LegacyRulesFile := "mount_rules.txt"
  const InternalRulesFile := "hybrid_rules.json"
  const UserRulesDir := "/data/adb/meta-hybrid/rules"

  function UserRulesPath(moduleId: string): Path {
    Join(UserRulesDir, moduleId + ".json")
  }

  /**
   * What `ModuleRules::load` returns. `readText` is `fs::read_to_string`;
   * `parsedRules` is reading plus JSON decoding of a rule file (None when
   * either fails).
   */
  function LoadedRules(moduleDir: Path, moduleId: string,
                       readText: Path -> Option<string>,
                       parsedRules: Path -> Option<ModuleRules>): ModuleRules
  {
    var legacy := match readText(Join(moduleDir, LegacyRulesFile))
      case None => map[]
      case Some(content) => LegacyPaths(Lines(content));
    Layered(Layered(ModuleRules(DefaultMode, legacy), parsedRules(Join(moduleDir, InternalRulesFile))),
            parsedRules(UserRulesPath(moduleId)))
  }

  /** `ModuleRules::load`: the legacy lines, then the module's JSON layer, then the user's. */
  method Load(moduleDir: Path, moduleId: string,
              readText: Path -> Option<string>,
              parsedRules: Path -> Option<ModuleRules>) returns (rules: ModuleRules)
    ensures rules == LoadedRules(moduleDir, moduleId, readText, parsedRules)
  {
    rules := EmptyRules;
    var legacy := readText(Join(moduleDir, LegacyRulesFile));
    if legacy.Some? {
      var paths := ReadLegacyLines(Lines(legacy.value));
      rules := rules.(paths := paths);
    }
    var internal := parsedRules(Join(moduleDir, InternalRulesFile));
    if internal.Some? {
      rules := rules.(defaultMode := internal.value.defaultMode, paths := rules.paths + internal.value.paths);
    }
    var user := parsedRules(UserRulesPath(moduleId));
    if user.Some? {
      rules := rules.(defaultMode := user.value.defaultMode, paths := rules.paths + user.value.paths);
    }
  }

  /** The loop of `ModuleRules::load` over the legacy lines: each rule line is inserted in turn. */
  method ReadLegacyLines(lines: seq<string>) returns (paths: map<string, MountMode>)
    ensures paths == LegacyPaths(lines)
  {
    paths := map[];
    ghost var entries := ParsedLines(lines);
    var i := 0;
    while i < |lines|
      invariant 0 <= i <= |lines|
      invariant paths == Assignments(entries[..i])
    {
      var parsed := ParseRuleLine(lines[i]);
      AssignmentsStep(entries, i);
      if parsed.Some? {
        paths := paths[parsed.value.0 := parsed.value.1];
      }
      i := i + 1;
    }
    assert entries[..|lines|] == entries;
  }

  /** One more parsed line: a rule overwrites its key, anything else leaves the map alone. */
  lemma AssignmentsStep(entries: seq<Option<(string, MountMode)>>, i: nat)
    requires i < |entries|
    ensures entries[i].None? ==> Assignments(entries[..i + 1]) == Assignments(entries[..i])
    ensures entries[i].Some? ==>
      Assignments(entries[..i + 1]) == Assignments(entries[..i])[entries[i].value.0 := entries[i].value.1]
  {
    assert entries[..i + 1][..i] == entries[..i];
  }

  // ---------------------------------------------------------------------
  // get_mode

  /** Rule key `key` covers `path` on a component boundary: "a" covers "a/b" but not "ab". */
  predicate CoversByPrefix(key: string, path: string) {
    StartsWith(path, key + "/")
  }

  /** The mode a default stands for: `Auto` means overlay. */
  function EffectiveDefault(m: MountMode): (r: MountMode)
    ensures r != Auto
    ensures m == Auto ==> r == Overlay
    ensures m != Auto ==> r == m
  {
    if m == Auto then Overlay else m
  }

  /**
   * The first key, among the prefixes of `path` that end just before a '/'
   * at position `i` or later, that is a rule.
   */
  function PrefixScan(paths: map<string, MountMode>, path: string, i: nat): (r: Option<string>)
    requires i <= |path|
    ensures r.Some? ==> r.value in paths && CoversByPrefix(r.value, path)
    ensures r.None? ==> forall k :: k in paths && CoversByPrefix(k, path) ==> |k| < i
    decreases |path| - i
  {
    if i == |path| then None
    else if path[i] == '/' && path[..i] in paths then
      assert path[..i] + "/" == path[..i + 1];
      Some(path[..i])
    else
      var r := PrefixScan(paths, path, i + 1);
      assert forall k :: k in paths && CoversByPrefix(k, path) && |k| == i ==> k == path[..i] && path[i] == '/' by {
        forall k | k in paths && CoversByPrefix(k, path) && |k| == i ensures k == path[..i] && path[i] == '/' {
          assert path[..i + 1] == k + "/";
          assert path[..i + 1][i] == '/';
        }
      }
      r
  }

  /**
   * `ModuleRules::get_mode`: leading '/'s of the query are ignored; an exact
   * key wins; otherwise a key that covers the path on a component boundary;
   * otherwise the effective default. (When several keys cover the path the
   * source's pick follows HashMap iteration order; the contract only says
   * that the mode of some covering key is returned.)
   */
  function GetMode(rules: ModuleRules, relativePath: string): (r: MountMode)
    ensures var clean := TrimLeading(relativePath, '/');
      && (clean in rules.paths ==> r == rules.paths[clean])
      && (clean !in rules.paths && (exists k :: k in rules.paths && CoversByPrefix(k, clean)) ==>
            exists k :: k in rules.paths && CoversByPrefix(k, clean) && r == rules.paths[k])
      && (clean !in rules.paths && (forall k :: k in rules.paths ==> !CoversByPrefix(k, clean)) ==>
            r == EffectiveDefault(rules.defaultMode))
  {
    var clean := TrimLeading(relativePath, '/');
    if clean in rules.paths then rules.paths[clean]
    else match PrefixScan(rules.paths, clean, 0)
      case Some(key) => rules.paths[key]
      case None => EffectiveDefault(rules.defaultMode)
  }

  /** Any number of leading '/'s in the query leaves the answer unchanged. */
  lemma GetModeIgnoresLeadingSlashes(rules: ModuleRules, path: string, n: nat)
    ensures GetMode(rules, seq(n, _ => '/') + path) == GetMode(rules, path)
  {
    TrimLeadingSlashes(path, n);
  }

  lemma {:induction false} TrimLeadingSlashes(path: string, n: nat)
    ensures TrimLeading(seq(n, _ => '/') + path, '/') == TrimLeading(path, '/')
    decreases n
  {
    if n > 0 {
      var slashed := seq(n, _ => '/') + path;
      assert slashed[0] == '/' && slashed[1..] == seq(n - 1, _ => '/') + path;
      TrimLeadingSlashes(path, n - 1);
    } else {
      assert seq(n, _ => '/') + path == path;
    }
  }

  // ---------------------------------------------------------------------
  // scan

  datatype Module = Module(id: string, sourcePath: Path, rules: ModuleRules)

  function ModuleId(m: Module): string { m.id }

  const ReservedIds: set<string> := {"meta-hybrid", "lost+found", ".git"}

  /** A directory entry that `scan` keeps: a directory, not reserved, and not disabled, removed or skipped. */
  predicate Eligible(sourceDir: Path, name: string, consts: Consts, host: Host) {
    var path := Join(sourceDir, name);
    && host.isDir(path)
    && name !in ReservedIds
    && !host.pathExists(Join(path, consts.disableFileName))
    && !host.pathExists(Join(path, consts.removeFileName))
    && !host.pathExists(Join(path, consts.skipMountFileName))
  }

  function ModuleAt(sourceDir: Path, name: string, readText: Path -> Option<string>,
                    parsedRules: Path -> Option<ModuleRules>): Module {
    var path := Join(sourceDir, name);
    Module(name, path, LoadedRules(path, name, readText, parsedRules))
  }

  /** The modules of the eligible entries, in listing order. */
  function Candidates(sourceDir: Path, names: seq<string>, consts: Consts, host: Host,
                      readText: Path -> Option<string>,
                      parsedRules: Path -> Option<ModuleRules>): seq<Module>
    decreases |names|
  {
    if names == [] then []
    else
      var before := Candidates(sourceDir, names[..|names| - 1], consts, host, readText, parsedRules);
      var name := names[|names| - 1];
      if Eligible(sourceDir, name, consts, host)
      then before + [ModuleAt(sourceDir, name, readText, parsedRules)]
      else before
  }

  /** `m` is what the scan makes of the entry `name`, and the entry is not skipped. */
  predicate ComesFrom(sourceDir: Path, name: string, consts: Consts, host: Host,
                      readText: Path -> Option<string>,
                      parsedRules: Path -> Option<ModuleRules>, m: Module) {
    Eligible(sourceDir, name, consts, host) && m == ModuleAt(sourceDir, name, readText, parsedRules)
  }

  /** A module is a candidate iff it is the module of some eligible entry. */
  lemma CandidatesMembership(sourceDir: Path, names: seq<string>, consts: Consts, host: Host,
                             readText: Path -> Option<string>,
                             parsedRules: Path -> Option<ModuleRules>, m: Module)
    ensures m in Candidates(sourceDir, names, consts, host, readText, parsedRules) <==>
      exists i :: 0 <= i < |names| && ComesFrom(sourceDir, names[i], consts, host, readText, parsedRules, m)
  {
    if m in Candidates(sourceDir, names, consts, host, readText, parsedRules) {
      var i := CandidateSource(sourceDir, names, consts, host, readText, parsedRules, m);
    }
    if exists i :: 0 <= i < |names| && ComesFrom(sourceDir, names[i], consts, host, readText, parsedRules, m) {
      var i :| 0 <= i < |names| && ComesFrom(sourceDir, names[i], consts, host, readText, parsedRules, m);
      CandidateOfEntry(sourceDir, names, consts, host, readText, parsedRules, i);
    }
  }

  /** Every candidate comes from some entry of the listing. */
  lemma {:induction false} CandidateSource(sourceDir: Path, names: seq<string>, consts: Consts, host: Host,
                                           readText: Path -> Option<string>,
                                           parsedRules: Path -> Option<ModuleRules>, m: Module) returns (i: nat)
    requires m in Candidates(sourceDir, names, consts, host, readText, parsedRules)
    ensures i < |names| && ComesFrom(sourceDir, names[i], consts, host, readText, parsedRules, m)
    decreases |names|
  {
    var n := |names| - 1;
    var init := names[..n];
    if ComesFrom(sourceDir, names[n], consts, host, readText, parsedRules, m) {
      i := n;
    } else {
      assert m in Candidates(sourceDir, init, consts, host, readText, parsedRules);
      i := CandidateSource(sourceDir, init, consts, host, readText, parsedRules, m);
      assert names[i] == init[i];
    }
  }

  /** The module of every kept entry is a candidate. */
  lemma {:induction false} CandidateOfEntry(sourceDir: Path, names: seq<string>, consts: Consts, host: Host,
                                            readText: Path -> Option<string>,
                                            parsedRules: Path -> Option<ModuleRules>, i: nat)
    requires i < |names| && Eligible(sourceDir, names[i], consts, host)
    ensures ModuleAt(sourceDir, names[i], readText, parsedRules) in Candidates(sourceDir, names, consts, host, readText, parsedRules)
    decreases |names|
  {
    var n := |names| - 1;
    var init := names[..n];
    var before := Candidates(sourceDir, init, consts, host, readText, parsedRules);
    var m := ModuleAt(sourceDir, names[i], readText, parsedRules);
    if i < n {
      assert names[i] == init[i];
      CandidateOfEntry(sourceDir, init, consts, host, readText, parsedRules, i);
      assert m in before;
      if Eligible(sourceDir, names[n], consts, host) {
        var last := ModuleAt(sourceDir, names[n], readText, parsedRules);
        assert Candidates(sourceDir, names, consts, host, readText, parsedRules) == before + [last];
      } else {
        assert Candidates(sourceDir, names, consts, host, readText, parsedRules) == before;
      }
    } else {
      assert Candidates(sourceDir, names, consts, host, readText, parsedRules) == before + [m];
    }
  }

  /**
   * `scan`: a missing directory gives no modules; an unreadable listing is an
   * error; otherwise the eligible entries' modules sorted by id. `listing` is
   * what `read_dir` yields (None when it, or any entry, fails).
   */
  method Scan(sourceDir: Path, consts: Consts, host: Host, listing: Option<seq<string>>,
              readText: Path -> Option<string>,
              parsedRules: Path -> Option<ModuleRules>) returns (r: Result<seq<Module>>)
    ensures !host.pathExists(sourceDir) ==> r == Ok([])
    ensures host.pathExists(sourceDir) && listing.None? ==> r == Err(ReadDirFailed(sourceDir))
    ensures host.pathExists(sourceDir) && listing.Some? ==>
      && r.Ok?
      && SortedBy(r.value, ModuleId)
      && multiset(r.value) == multiset(Candidates(sourceDir, listing.value, consts, host, readText, parsedRules))
  {
    if !host.pathExists(sourceDir) {
      return Ok([]);
    }
    if listing.None? {
      return Err(ReadDirFailed(sourceDir));
    }
    var names := listing.value;
    var modules: seq<Module> := [];
    var i := 0;
    while i < |names|
      invariant 0 <= i <= |names|
      invariant modules == Candidates(sourceDir, names[..i], consts, host, readText, parsedRules)
    {
      assert names[..i + 1][..i] == names[..i];
      var name := names[i];
      if Eligible(sourceDir, name, consts, host) {
        var path := Join(sourceDir, name);
        var rules := Load(path, name, readText, parsedRules);
        modules := modules + [Module(name, path, rules)];
      }
      i := i + 1;
    }
    assert names[..|names|] == names;
    modules := SortBy(modules, ModuleId);
    r := Ok(modules);
  }
}
