/** The configuration reader's section stack (`load_config`) against the layout it is written in:
    nested keys, two spaces a level. */
module ConfigSections {
  import opened Common
  import opened RustStr

  /** A value handed to `apply_config_value` with its full key path. */
  datatype Setting = Setting(path: seq<string>, value: string)

  datatype ConfigError = MissingColon | UnexpectedIndentation | Rejected

  // --- the lines of a file ---

  function WithoutReturn(line: string): string {
    if line != "" && line[|line| - 1] == '\r' then line[..|line| - 1] else line
  }

  /** `BufReader::lines`: what stands before each line break, and what follows the last one if there is
      anything; a carriage return before the break belongs to it. */
  function Lines(text: string): seq<string>
    decreases |text|
  {
    if text == "" then []
    else
      match SplitOnce(text, '\n')
      case None => [text]
      case Some(parts) => [WithoutReturn(parts.0)] + Lines(parts.1)
  }

  // --- the reader as a function ---

  function LeadingSpaces(s: string): nat {
    if s != "" && s[0] == ' ' then 1 + LeadingSpaces(s[1..]) else 0
  }

  /** What one line asks for, given the stack of enclosing sections. */
  datatype Effect = Ignore | Enter(section: seq<string>) | Apply(setting: Setting) | Fail(error: ConfigError)

  function LineEffect(raw: string, section: seq<string>): Effect {
    var line := Trim(raw);
    if line == "" || line[0] == '#' then Ignore
    else
      var indent := LeadingSpaces(raw) / 2;
      var parts := SplitOnce(line, ':');
      if parts.None? then Fail(MissingColon)
      else
        var (key, value) := (Trim(parts.value.0), Trim(parts.value.1));
        if value == "" then
          if indent > |section| then Fail(UnexpectedIndentation) else Enter(section[..indent] + [key])
        else
          var take := if indent < |section| then indent else |section|;
          Apply(Setting(section[..take] + [key], value))
  }

  /** The settings applied by some lines, or the first error; `accepts` stands for the per-key checks of
      `apply_config_value`. */
  function Load(lines: seq<string>, section: seq<string>, accepts: Setting -> bool): Result<seq<Setting>, ConfigError>
    decreases lines
  {
    if lines == [] then Ok([])
    else
      match LineEffect(lines[0], section)
      case Ignore => Load(lines[1..], section, accepts)
      case Enter(inner) => Load(lines[1..], inner, accepts)
      case Fail(e) => Err(e)
      case Apply(setting) =>
        if !accepts(setting) then Err(Rejected) else Prepend([setting], Load(lines[1..], section, accepts))
  }

  function Prepend(settings: seq<Setting>, more: Result<seq<Setting>, ConfigError>): Result<seq<Setting>, ConfigError> {
    if more.Err? then more else Ok(settings + more.value)
  }

  lemma PrependTwice(a: seq<Setting>, b: seq<Setting>, more: Result<seq<Setting>, ConfigError>)
    ensures Prepend(a, Prepend(b, more)) == Prepend(a + b, more)
    ensures Prepend([], more) == more
  {
    if more.Ok? {
      assert a + (b + more.value) == (a + b) + more.value;
      assert [] + more.value == more.value;
    }
  }

  /** Settings applied one after the other, as far as they are accepted. */
  function ApplyAll(settings: seq<Setting>, accepts: Setting -> bool,
      more: Result<seq<Setting>, ConfigError>): Result<seq<Setting>, ConfigError> {
    if settings == [] then more
    else if !accepts(settings[0]) then Err(Rejected)
    else Prepend([settings[0]], ApplyAll(settings[1..], accepts, more))
  }

  lemma {:induction false} ApplyTwice(a: seq<Setting>, b: seq<Setting>, accepts: Setting -> bool,
      more: Result<seq<Setting>, ConfigError>)
    ensures ApplyAll(a + b, accepts, more) == ApplyAll(a, accepts, ApplyAll(b, accepts, more))
  {
    if a == [] {
      assert a + b == b;
    } else {
      assert (a + b)[1..] == a[1..] + b;
      ApplyTwice(a[1..], b, accepts, more);
    }
  }

  lemma {:induction false} ApplyAllIs(settings: seq<Setting>, accepts: Setting -> bool)
    ensures ApplyAll(settings, accepts, Ok([])) ==
            if forall s :: s in settings ==> accepts(s) then Ok(settings) else Err(Rejected)
  {
    if settings != [] {
      ApplyAllIs(settings[1..], accepts);
      assert settings == [settings[0]] + settings[1..];
    }
  }

  // --- the reader as the source writes it: a loop over lines and a stack ---

  /** The loop of `load_config` over the lines of a file, with its stack of sections. */
  method LoadConfig(lines: seq<string>, accepts: Setting -> bool) returns (r: Result<seq<Setting>, ConfigError>)
    ensures r == Load(lines, [], accepts)
  {
    hide Trim, SplitOnce, LeadingSpaces;
    var section: seq<string> := [];
    var applied: seq<Setting> := [];
    PrependTwice([], [], Load(lines, [], accepts));
    for i := 0 to |lines|
      invariant Prepend(applied, Load(lines[i..], section, accepts)) == Load(lines, [], accepts)
    {
      assert lines[i..][1..] == lines[i + 1..];
      var raw := lines[i];
      var line := Trim(raw);
      if line == "" || line[0] == '#' { continue; }
      var indent := LeadingSpaces(raw) / 2;
      var parts := SplitOnce(line, ':');
      if parts.None? { return Err(MissingColon); }
      var key := Trim(parts.value.0);
      var value := Trim(parts.value.1);
      if value == "" {
        if indent > |section| { return Err(UnexpectedIndentation); }
        section := section[..indent] + [key];
        continue;
      }
      var take := if indent < |section| then indent else |section|;
      var setting := Setting(section[..take] + [key], value);
      if !accepts(setting) { return Err(Rejected); }
      PrependTwice(applied, [setting], Load(lines[i + 1..], section, accepts));
      applied := applied + [setting];
    }
    assert lines[|lines|..] == [] && applied + [] == applied;
    return Ok(applied);
  }

  // --- the layout ---

  datatype Node = Leaf(key: string, value: string) | Section(key: string, children: seq<Node>)

  function Spaces(n: nat): (s: string)
    ensures |s| == n && forall i :: 0 <= i < n ==> s[i] == ' '
  {
    seq(n, _ => ' ')
  }

  function RenderNode(node: Node, depth: nat): seq<string>
    decreases node, 1
  {
    match node
    case Leaf(key, value) => [Spaces(2 * depth) + key + ": " + value]
    case Section(key, children) => [Spaces(2 * depth) + key + ":"] + RenderNodes(children, depth + 1)
  }

  function RenderNodes(nodes: seq<Node>, depth: nat): seq<string>
    decreases nodes, 0
  {
    if nodes == [] then [] else RenderNode(nodes[0], depth) + RenderNodes(nodes[1..], depth)
  }

  /** The non-empty leaves, in order, each with its full path. */
  function SettingsOf(node: Node, path: seq<string>): seq<Setting>
    decreases node, 1
  {
    match node
    case Leaf(key, value) => if value == "" then [] else [Setting(path + [key], value)]
    case Section(key, children) => SettingsOfAll(children, path + [key])
  }

  function SettingsOfAll(nodes: seq<Node>, path: seq<string>): seq<Setting>
    decreases nodes, 0
  {
    if nodes == [] then [] else SettingsOf(nodes[0], path) + SettingsOfAll(nodes[1..], path)
  }

  /** A key is not empty, has no colon and no line break, no space at its ends and does not start like a
      comment. */
  predicate IsKey(key: string) {
    && key != "" && ':' !in key && '\n' !in key && key[0] != '#'
    && !IsWhitespace(key[0]) && !IsWhitespace(key[|key| - 1])
  }

  /** A value has no line break and no space at its ends; it may be empty and may contain colons. */
  predicate IsValue(value: string) {
    '\n' !in value && (value != "" ==> !IsWhitespace(value[0]) && !IsWhitespace(value[|value| - 1]))
  }

  predicate IsTree(node: Node) {
    match node
    case Leaf(key, value) => IsKey(key) && IsValue(value)
    case Section(key, children) => IsKey(key) && forall i :: 0 <= i < |children| ==> IsTree(children[i])
  }

  // --- one line ---

  lemma {:induction false} TrimStartSpaces(n: nat, s: string)
    requires s != "" && !IsWhitespace(s[0])
    ensures TrimStart(Spaces(n) + s) == s && LeadingSpaces(Spaces(n) + s) == n
  {
    if n == 0 {
      assert Spaces(0) + s == s;
    } else {
      assert (Spaces(n) + s)[1..] == Spaces(n - 1) + s;
      TrimStartSpaces(n - 1, s);
    }
  }

  lemma TrimOfValue(value: string)
    requires IsValue(value)
    ensures Trim(" " + value) == value
  {
    assert (" " + value)[1..] == value;
    assert TrimStart(" " + value) == TrimStart(value);
  }

  lemma EffectOfLeaf(key: string, value: string, depth: nat, section: seq<string>)
    requires IsKey(key) && IsValue(value) && depth <= |section|
    ensures LineEffect(Spaces(2 * depth) + key + ": " + value, section) ==
            if value == "" then Enter(section[..depth] + [key]) else Apply(Setting(section[..depth] + [key], value))
  {
    hide SplitOnce;
    var text := key + ": " + value;
    assert Spaces(2 * depth) + key + ": " + value == Spaces(2 * depth) + text;
    TrimStartSpaces(2 * depth, text);
    TrimOfTight(key);
    if value == "" {
      assert text[..|text| - 1] == key + ":";
      assert TrimEnd(text) == TrimEnd(key + ":") == key + ":";
      assert key + ":" == key + ":" + "";
      SplitOnceFirst(key, ':', "");
    } else {
      assert TrimEnd(text) == text;
      assert text == key + ":" + (" " + value);
      SplitOnceFirst(key, ':', " " + value);
      TrimOfValue(value);
    }
  }

  lemma EffectOfHeader(key: string, depth: nat, section: seq<string>)
    requires IsKey(key) && depth <= |section|
    ensures LineEffect(Spaces(2 * depth) + key + ":", section) == Enter(section[..depth] + [key])
  {
    hide SplitOnce;
    assert Spaces(2 * depth) + key + ":" == Spaces(2 * depth) + (key + ":");
    TrimStartSpaces(2 * depth, key + ":");
    assert key + ":" == key + ":" + "";
    SplitOnceFirst(key, ':', "");
    TrimOfTight(key);
  }

  // --- a whole tree ---

  lemma {:induction false} LoadNode(node: Node, path: seq<string>, section: seq<string>, rest: seq<string>,
      accepts: Setting -> bool)
      returns (after: seq<string>)
    requires IsTree(node) && path <= section
    ensures path <= after
    ensures Load(RenderNode(node, |path|) + rest, section, accepts)
            == ApplyAll(SettingsOf(node, path), accepts, Load(rest, after, accepts))
    decreases node, 1
  {
    hide LineEffect, IsKey, IsValue;
    var depth := |path|;
    var lines := RenderNode(node, depth) + rest;
    match node
    case Leaf(key, value) =>
      EffectOfLeaf(key, value, depth, section);
      assert section[..depth] == path && lines[1..] == rest;
      after := if value == "" then path + [key] else section;
    case Section(key, children) =>
      EffectOfHeader(key, depth, section);
      assert section[..depth] == path && lines[1..] == RenderNodes(children, depth + 1) + rest;
      after := LoadNodes(children, path + [key], path + [key], rest, accepts);
  }

  lemma {:induction false} LoadNodes(nodes: seq<Node>, path: seq<string>, section: seq<string>, rest: seq<string>,
      accepts: Setting -> bool)
      returns (after: seq<string>)
    requires (forall i :: 0 <= i < |nodes| ==> IsTree(nodes[i])) && path <= section
    ensures path <= after
    ensures Load(RenderNodes(nodes, |path|) + rest, section, accepts)
            == ApplyAll(SettingsOfAll(nodes, path), accepts, Load(rest, after, accepts))
    decreases nodes, 0
  {
    hide LineEffect, IsTree, Load;
    if nodes == [] {
      after := section;
      assert RenderNodes(nodes, |path|) + rest == rest;
    } else {
      var more := RenderNodes(nodes[1..], |path|) + rest;
      assert RenderNodes(nodes, |path|) + rest == RenderNode(nodes[0], |path|) + more;
      var middle := LoadNode(nodes[0], path, section, more, accepts);
      after := LoadNodes(nodes[1..], path, middle, rest, accepts);
      ApplyTwice(SettingsOf(nodes[0], path), SettingsOfAll(nodes[1..], path), accepts, Load(rest, after, accepts));
    }
  }

  // --- main results ---

  /** Lines that are empty or comments change nothing, wherever they stand. */
  function Significant(lines: seq<string>): seq<string> {
    if lines == [] then []
    else if LineEffect(lines[0], []).Ignore? then Significant(lines[1..])
    else [lines[0]] + Significant(lines[1..])
  }

  /** Empty lines and comments change nothing, wherever they stand. */
  lemma {:induction false} InsignificantLinesAreIgnored(lines: seq<string>, section: seq<string>,
      accepts: Setting -> bool)
    ensures Load(lines, section, accepts) == Load(Significant(lines), section, accepts)
    decreases lines
  {
    hide Trim, SplitOnce, LeadingSpaces;
    if lines != [] {
      var e := LineEffect(lines[0], section);
      assert e.Ignore? <==> LineEffect(lines[0], []).Ignore?;
      InsignificantLinesAreIgnored(lines[1..], if e.Enter? then e.section else section, accepts);
      assert !e.Ignore? ==> Significant(lines)[1..] == Significant(lines[1..]);
    }
  }

  /** A tree of keys of any depth, laid out two spaces a level and with empty lines and comments
      anywhere between, gives exactly its non-empty leaves, in order, each at its full path, if they are
      all acceptable.  A leaf with an empty value is read as a section header and still disturbs nothing
      after it. */
  lemma LayoutIsReadBack(nodes: seq<Node>, lines: seq<string>, accepts: Setting -> bool)
    requires forall i :: 0 <= i < |nodes| ==> IsTree(nodes[i])
    requires Significant(lines) == RenderNodes(nodes, 0)
    ensures Load(lines, [], accepts) ==
            var settings := SettingsOfAll(nodes, []);
            if forall s :: s in settings ==> accepts(s) then Ok(settings) else Err(Rejected)
  {
    InsignificantLinesAreIgnored(lines, [], accepts);
    var after := LoadNodes(nodes, [], [], [], accepts);
    assert RenderNodes(nodes, 0) + [] == RenderNodes(nodes, 0);
    ApplyAllIs(SettingsOfAll(nodes, []), accepts);
  }

  /** A line without a colon, that is neither empty nor a comment, refuses the file, whatever follows; so does a
      header that is deeper than any section around it. */
  lemma BadLinesAreRefused(lines: seq<string>, accepts: Setting -> bool, section: seq<string>, bad: string, key: string,
      depth: nat)
    requires Trim(bad) != "" && Trim(bad)[0] != '#' && ':' !in Trim(bad)
    requires IsKey(key) && depth > |section|
    ensures Load([bad] + lines, section, accepts) == Err(MissingColon)
    ensures Load([Spaces(2 * depth) + key + ":"] + lines, section, accepts) == Err(UnexpectedIndentation)
  {
    hide Trim, LeadingSpaces, SplitOnce;
    SplitOnceFirst(Trim(bad), ':', "");
    HeaderParts(key, depth);
  }

  lemma HeaderParts(key: string, depth: nat)
    requires IsKey(key)
    ensures var s := Spaces(2 * depth) + key + ":";
            && Trim(s) == key + ":" && LeadingSpaces(s) == 2 * depth && key + ":" != "" && (key + ":")[0] != '#'
            && SplitOnce(key + ":", ':') == Some((key, "")) && Trim(key) == key && Trim("") == ""
  {
    var text := key + ":";
    assert Spaces(2 * depth) + key + ":" == Spaces(2 * depth) + text;
    TrimStartSpaces(2 * depth, text);
    assert text == key + [':'] + "";
    SplitOnceFirst(key, ':', "");
    TrimOfTight(key);
  }

  // --- the file ---

  /** A text that can be a line of a file. */
  predicate IsLine(line: string) {
    '\n' !in line && (line != "" ==> line[|line| - 1] != '\r')
  }

  /** How a line may end: the last one, if it is not empty, also with the file. */
  predicate AreEnds(lines: seq<string>, ends: seq<string>) {
    && |ends| == |lines|
    && forall i :: 0 <= i < |lines| ==>
         || ends[i] in {"\n", "\r\n"}
         || (i == |lines| - 1 && ends[i] == "" && lines[i] != "")
  }

  function FileText(lines: seq<string>, ends: seq<string>): string
    requires AreEnds(lines, ends)
  {
    if lines == [] then "" else lines[0] + ends[0] + FileText(lines[1..], ends[1..])
  }

  lemma LineIsTaken(line: string, end: string, rest: string)
    requires IsLine(line) && end in {"\n", "\r\n"}
    ensures Lines(line + end + rest) == [line] + Lines(rest)
  {
    var head := if end == "\n" then line else line + ['\r'];
    assert line + end + rest == head + ['\n'] + rest;
    SplitOnceFirst(head, '\n', rest);
    assert WithoutReturn(head) == line;
  }

  lemma LastLineIsTaken(line: string)
    requires IsLine(line) && line != ""
    ensures Lines(line) == [line]
  {
    SplitOnceFirst(line, '\n', "");
  }

  lemma {:induction false} LinesOfFile(lines: seq<string>, ends: seq<string>)
    requires AreEnds(lines, ends) && forall l :: l in lines ==> IsLine(l)
    ensures Lines(FileText(lines, ends)) == lines
  {
    hide IsLine, Lines;
    if lines != [] {
      assert lines == [lines[0]] + lines[1..];
      if ends[0] == "" {
        assert FileText(lines[1..], ends[1..]) == "" && lines[0] + ends[0] + "" == lines[0] && lines == [lines[0]];
        LastLineIsTaken(lines[0]);
      } else {
        LinesOfFile(lines[1..], ends[1..]);
        LineIsTaken(lines[0], ends[0], FileText(lines[1..], ends[1..]));
      }
    } else {
      NoLines();
    }
  }

  lemma NoLines()
    ensures Lines("") == []
  {
  }

  lemma {:induction false} RenderedLines(node: Node, depth: nat)
    requires IsTree(node)
    ensures forall l :: l in RenderNode(node, depth) ==> IsLine(l)
    decreases node, 1
  {
    hide IsWhitespace;
    match node
    case Leaf(key, value) => LeafIsLine(key, value, depth);
    case Section(key, children) =>
      HeaderIsLine(key, depth);
      RenderedLinesOfAll(children, depth + 1);
  }

  lemma LeafIsLine(key: string, value: string, depth: nat)
    requires IsKey(key) && IsValue(value)
    ensures IsLine(Spaces(2 * depth) + key + ": " + value)
  {
    assert IsWhitespace('\r');
  }

  lemma HeaderIsLine(key: string, depth: nat)
    requires IsKey(key)
    ensures IsLine(Spaces(2 * depth) + key + ":")
  {
  }

  lemma {:induction false} RenderedLinesOfAll(nodes: seq<Node>, depth: nat)
    requires forall i :: 0 <= i < |nodes| ==> IsTree(nodes[i])
    ensures forall l :: l in RenderNodes(nodes, depth) ==> IsLine(l)
    decreases nodes, 0
  {
    hide IsTree, IsLine;
    if nodes != [] {
      RenderedLines(nodes[0], depth);
      RenderedLinesOfAll(nodes[1..], depth);
    }
  }

  lemma {:induction false} EveryLineIsSomewhere(lines: seq<string>)
    ensures forall l :: l in lines ==> LineEffect(l, []).Ignore? || l in Significant(lines)
  {
    hide LineEffect;
    if lines != [] {
      EveryLineIsSomewhere(lines[1..]);
      assert lines == [lines[0]] + lines[1..];
    }
  }

  /** So does the file itself, whichever of the two line breaks ends each line and whether or not the last
      line has one. */
  lemma FileIsReadBack(nodes: seq<Node>, lines: seq<string>, ends: seq<string>, accepts: Setting -> bool)
    requires forall i :: 0 <= i < |nodes| ==> IsTree(nodes[i])
    requires Significant(lines) == RenderNodes(nodes, 0)
    requires AreEnds(lines, ends) && forall l :: l in lines && LineEffect(l, []).Ignore? ==> IsLine(l)
    ensures Load(Lines(FileText(lines, ends)), [], accepts) ==
            var settings := SettingsOfAll(nodes, []);
            if forall s :: s in settings ==> accepts(s) then Ok(settings) else Err(Rejected)
  {
    hide LineEffect, IsTree, IsLine, Lines, FileText, AreEnds, Load;
    EveryLineIsSomewhere(lines);
    RenderedLinesOfAll(nodes, 0);
    LinesOfFile(lines, ends);
    LayoutIsReadBack(nodes, lines, accepts);
  }
}
