/**
 `project-skills.py`: a skill file includes component files line by line, components include others,
 and the file graph may have cycles.  A set of the files on the current include path, carried down
 the recursion, cuts them.
 */
module IncludeExpander {
  import opened Prelude
  import opened Strings

  /** A resolved path: a file that exists, or the spelled-out path of one that does not. */
  datatype Path = File(id: string) | Absent(name: string)

  datatype Content = Content(lines: seq<string>, endsWithNewline: bool)

  /** What the three include patterns recognise in a line. */
  datatype Directive =
    | NoDirective
    | SimpleCat(name: string)
    | CatOrCat(project: string, component: string)
    | CatOrEcho(project: string, text: string)

  /** The file system as the expander sees it: file contents, the component and project-config names
      that exist with the files they resolve to, and the declared capabilities (None: all). */
  datatype Site = Site(files: map<string, Content>, components: map<string, string>,
                       project: map<string, string>, capabilities: Option<set<string>>,
                       parse: string -> Directive)

  /** The part before the first slash. */
  function Namespace(name: string): Option<string> {
    if name == "" then None
    else if name[0] == '/' then Some("")
    else match Namespace(name[1..])
         case None => None
         case Some(ns) => Some([name[0]] + ns)
  }

  predicate Gated(site: Site, name: string) {
    var ns := Namespace(name);
    ns.Some? && ns.value != "" && site.capabilities.Some? && ns.value !in site.capabilities.value
  }

  function ComponentPath(site: Site, name: string): Path {
    if name in site.components then File(site.components[name]) else Absent(name)
  }

  predicate Readable(site: Site, path: Path) {
    path.File? && path.id in site.files
  }

  function ContentOf(site: Site, path: Path): Content {
    if Readable(site, path) then site.files[path.id] else Content([], false)
  }

  function Text(c: Content, lines: seq<string>): string {
    JoinLines(lines) + if c.endsWithNewline then "\n" else ""
  }

  /** What a line stands for: itself or other literal text, or the contents of a file. */
  datatype Target = Literal(text: string) | Include(name: string, path: Path)

  function Skipped(name: string, ns: string): string {
    "<!-- SKIPPED component: " + name + " (capability '" + ns + "' not declared) -->"
  }

  function Circular(name: string): string {
    "<!-- CIRCULAR INCLUDE DETECTED: " + name + " -->"
  }

  function Wrap(name: string, content: string): string {
    "<!-- BEGIN component: " + name + " -->\n" + content + "<!-- END component: " + name + " -->"
  }

  function ComponentTarget(site: Site, name: string): Target {
    if Gated(site, name) then Literal(Skipped(name, Namespace(name).value))
    else Include(name, ComponentPath(site, name))
  }

  function TargetOf(site: Site, line: string): Target {
    match site.parse(line)
    case NoDirective => Literal(line)
    case SimpleCat(name) => ComponentTarget(site, name)
    case CatOrCat(project, component) =>
      if project in site.project then Include(project, File(site.project[project]))
      else ComponentTarget(site, component)
    case CatOrEcho(project, text) =>
      if project in site.project then
        var c := ContentOf(site, File(site.project[project]));
        Literal(Wrap(project, Text(c, c.lines)))
      else Literal(text)
  }

  // ---- the expansion as a tree ----

  /** How a line was expanded. */
  datatype Node =
    | Leaf(text: string)
    | Marker(name: string, path: Path)
    | Expanded(name: string, path: Path, body: seq<Node>, content: Content)

  /** Files not yet on the include path: what the recursion consumes. */
  function Unvisited(site: Site, stack: set<Path>): set<string> {
    set id | id in site.files && File(id) !in stack
  }

  lemma VisitedShrinks(site: Site, stack: set<Path>, path: Path)
    requires Readable(site, path) && path !in stack
    ensures |Unvisited(site, stack + {path})| < |Unvisited(site, stack)|
  {
    var before, after := Unvisited(site, stack), Unvisited(site, stack + {path});
    assert after <= before - {path.id};
    Subset(after, before - {path.id});
  }

  lemma {:induction false} Subset(a: set<string>, b: set<string>)
    requires a <= b
    ensures |a| <= |b|
  {
    if a != {} {
      var x :| x in a;
      Subset(a - {x}, b - {x});
    }
  }

  function Budget(site: Site, stack: set<Path>): nat {
    2 * |Unvisited(site, stack)| + 1
  }

  function TraceLine(site: Site, stack: set<Path>, line: string): Node
    decreases Budget(site, stack), 0, 0
  {
    match TargetOf(site, line)
    case Literal(text) => Leaf(text)
    case Include(name, path) =>
      if path in stack then Marker(name, path)
      else
        assert Readable(site, path) ==> |Unvisited(site, stack + {path})| < |Unvisited(site, stack)| by {
          if Readable(site, path) { VisitedShrinks(site, stack, path); }
        }
        Expanded(name, path, TraceFile(site, stack + {path}, path), ContentOf(site, path))
  }

  function TraceFile(site: Site, stack: set<Path>, path: Path): seq<Node>
    decreases if Readable(site, path) then Budget(site, stack) + 1 else 0, 0, 0
  {
    if !Readable(site, path) then [] else TraceLines(site, stack, site.files[path.id].lines)
  }

  function TraceLines(site: Site, stack: set<Path>, lines: seq<string>): (nodes: seq<Node>)
    ensures |nodes| == |lines|
    ensures forall i :: 0 <= i < |lines| ==> nodes[i] == TraceLine(site, stack, lines[i])
    decreases Budget(site, stack), 1, |lines|
  {
    if lines == [] then []
    else [TraceLine(site, stack, lines[0])] + TraceLines(site, stack, lines[1..])
  }

  function Render(n: Node): string {
    match n
    case Leaf(text) => text
    case Marker(name, _) => Circular(name)
    case Expanded(name, _, body, content) => Wrap(name, Text(content, RenderAll(body)))
  }

  function RenderAll(ns: seq<Node>): seq<string> {
    if ns == [] then [] else [Render(ns[0])] + RenderAll(ns[1..])
  }

  // ---- markers and cycles ----

  predicate HasMarker(n: Node) {
    match n
    case Leaf(_) => false
    case Marker(_, _) => true
    case Expanded(_, _, body, _) => exists i :: 0 <= i < |body| && HasMarker(body[i])
  }

  predicate AnyMarker(ns: seq<Node>) {
    exists i :: 0 <= i < |ns| && HasMarker(ns[i])
  }

  /** One file includes another on some line. */
  ghost predicate Includes(site: Site, from: Path, to: Path) {
    exists i :: 0 <= i < |ContentOf(site, from).lines|
                && var t := TargetOf(site, ContentOf(site, from).lines[i]); t.Include? && t.path == to
  }

  /** A walk along includes. */
  ghost predicate Walk(site: Site, w: seq<Path>) {
    w != [] && forall i :: 0 <= i < |w| - 1 ==> Includes(site, w[i], w[i + 1])
  }

  /** Some walk from `path` comes back to a file it has been at. */
  ghost predicate LeadsIntoCycle(site: Site, path: Path) {
    exists w :: Walk(site, w) && w[0] == path && !Distinct(w)
  }

  ghost function PathsOf(w: seq<Path>): set<Path> {
    set p | p in w
  }

  lemma WalkOn(site: Site, w: seq<Path>, to: Path)
    requires Walk(site, w) && Includes(site, w[|w| - 1], to)
    ensures Walk(site, w + [to])
  {
  }

  /** A marker is only ever put where the include path has closed a cycle. */
  lemma {:induction false} MarkerClosesCycle(site: Site, trail: seq<Path>) returns (w: seq<Path>)
    requires Walk(site, trail) && AnyMarker(TraceFile(site, PathsOf(trail), trail[|trail| - 1]))
    ensures Walk(site, w) && w[0] == trail[0] && !Distinct(w)
    decreases Budget(site, PathsOf(trail))
  {
    var stack, path := PathsOf(trail), trail[|trail| - 1];
    var lines := ContentOf(site, path).lines;
    var i :| 0 <= i < |lines| && HasMarker(TraceLine(site, stack, lines[i]));
    var target := TargetOf(site, lines[i]).path;
    assert Includes(site, path, target);
    WalkOn(site, trail, target);
    w := trail + [target];
    if target in stack {
      var j :| 0 <= j < |trail| && trail[j] == target;
      assert w[j] == w[|trail|];
    } else {
      assert PathsOf(w) == stack + {target};
      assert TraceLine(site, stack, lines[i]).body == TraceFile(site, PathsOf(w), target);
      assert Readable(site, target);
      VisitedShrinks(site, stack, target);
      w := MarkerClosesCycle(site, w);
    }
  }

  /** Without a marker below a file, no walk from it meets the include path or itself again. */
  lemma {:induction false} NoMarkerNoRepeat(site: Site, stack: set<Path>, w: seq<Path>)
    requires Walk(site, w) && w[0] in stack && !AnyMarker(TraceFile(site, stack, w[0]))
    ensures Distinct(w) && forall i :: 0 < i < |w| ==> w[i] !in stack
    decreases |w|
  {
    if |w| > 1 {
      var lines := ContentOf(site, w[0]).lines;
      assert Includes(site, w[0], w[1]);
      var i :| 0 <= i < |lines| && TargetOf(site, lines[i]).Include? && TargetOf(site, lines[i]).path == w[1];
      var node := TraceLine(site, stack, lines[i]);
      assert TraceFile(site, stack, w[0])[i] == node && !HasMarker(node);
      assert node.body == TraceFile(site, stack + {w[1]}, w[1]);
      assert Walk(site, w[1..]);
      NoMarkerNoRepeat(site, stack + {w[1]}, w[1..]);
      assert forall j :: 0 < j < |w| ==> w[j] == w[1..][j - 1];
    }
  }

  /** A line of a skill file expands to text with a circular marker exactly when its include leads
      into a cycle; a file shared by several includes but on no cycle is expanded every time. */
  lemma MarkerIffCycle(site: Site, line: string)
    ensures HasMarker(TraceLine(site, {}, line))
            <==> TargetOf(site, line).Include? && LeadsIntoCycle(site, TargetOf(site, line).path)
  {
    var target := TargetOf(site, line);
    if target.Include? {
      var path := target.path;
      assert PathsOf([path]) == {path} && {} + {path} == {path};
      if HasMarker(TraceLine(site, {}, line)) {
        var w := MarkerClosesCycle(site, [path]);
      } else if LeadsIntoCycle(site, path) {
        var w :| Walk(site, w) && w[0] == path && !Distinct(w);
        NoMarkerNoRepeat(site, {path}, w);
      }
    }
  }

  /** In the whole tree, markers name a file on the include path above them and expanded files are
      not on it. */
  ghost predicate WellMarked(n: Node, above: set<Path>) {
    match n
    case Leaf(_) => true
    case Marker(_, path) => path in above
    case Expanded(_, path, body, _) =>
      path !in above && forall i :: 0 <= i < |body| ==> WellMarked(body[i], above + {path})
  }

  lemma {:induction false} TraceIsWellMarked(site: Site, stack: set<Path>, line: string)
    ensures WellMarked(TraceLine(site, stack, line), stack)
    decreases Budget(site, stack)
  {
    var target := TargetOf(site, line);
    if target.Include? && target.path !in stack && Readable(site, target.path) {
      VisitedShrinks(site, stack, target.path);
      var lines := site.files[target.path.id].lines;
      forall i | 0 <= i < |lines| {
        TraceIsWellMarked(site, stack + {target.path}, lines[i]);
      }
    }
  }

  // ---- what stands in a line's place ----

  /** The capability `ns` is what the name has before its first slash, and it is not among those declared. */
  ghost predicate Undeclared(site: Site, name: string, ns: string) {
    && ns != "" && '/' !in ns && ns + "/" <= name
    && site.capabilities.Some? && ns !in site.capabilities.value
  }

  lemma {:induction false} NamespaceIsPrefix(name: string)
    ensures Namespace(name).None? <==> '/' !in name
    ensures Namespace(name).Some? ==> '/' !in Namespace(name).value && Namespace(name).value + "/" <= name
  {
    if name != "" && name[0] != '/' {
      NamespaceIsPrefix(name[1..]);
      assert name == [name[0]] + name[1..];
      if Namespace(name[1..]).Some? {
        var ns := Namespace(name[1..]).value;
        assert ([name[0]] + ns) + "/" == [name[0]] + (ns + "/");
      }
    }
  }

  lemma OnePrefix(name: string, a: string, b: string)
    requires '/' !in a && '/' !in b && a + "/" <= name && b + "/" <= name
    ensures a == b
  {
    assert name[|a|] == (a + "/")[|a|] == '/' && name[|b|] == (b + "/")[|b|] == '/';
    assert forall i :: 0 <= i < |a| ==> name[i] == (a + "/")[i] != '/';
    assert forall i :: 0 <= i < |b| ==> name[i] == (b + "/")[i] != '/';
    assert a == name[..|a|] && b == name[..|b|];
  }

  lemma GatedIff(site: Site, name: string)
    ensures Gated(site, name) <==> exists ns :: Undeclared(site, name, ns)
    ensures forall ns :: Undeclared(site, name, ns) ==> Namespace(name) == Some(ns)
  {
    NamespaceIsPrefix(name);
    if Gated(site, name) {
      assert Undeclared(site, name, Namespace(name).value);
    }
    forall ns | Undeclared(site, name, ns) ensures Namespace(name) == Some(ns) {
      assert (ns + "/")[|ns|] == '/' && name[|ns|] == '/';
      OnePrefix(name, ns, Namespace(name).value);
    }
  }

  /** The lines of a file, each replaced by what it stands for, between the markers of `name`. */
  ghost predicate Framed(site: Site, stack: set<Path>, name: string, path: Path, r: string) {
    exists out: seq<string> ::
      && |out| == |ContentOf(site, path).lines|
      && (forall k :: 0 <= k < |out| ==> out[k] == Render(TraceLine(site, stack, ContentOf(site, path).lines[k])))
      && r == "<!-- BEGIN component: " + name + " -->\n"
              + (JoinLines(out) + if ContentOf(site, path).endsWithNewline then "\n" else "")
              + "<!-- END component: " + name + " -->"
  }

  /** An included file: a marker if it is on the include path already, else its framed lines. */
  ghost predicate Included(site: Site, stack: set<Path>, name: string, path: Path, r: string) {
    if path in stack then r == "<!-- CIRCULAR INCLUDE DETECTED: " + name + " -->"
    else Framed(site, stack + {path}, name, path, r)
  }

  /** A component: a note if its capability is not declared, else included. */
  ghost predicate Component(site: Site, stack: set<Path>, name: string, r: string) {
    if exists ns :: Undeclared(site, name, ns)
    then exists ns :: Undeclared(site, name, ns)
                      && r == "<!-- SKIPPED component: " + name + " (capability '" + ns + "' not declared) -->"
    else Included(site, stack, name, if name in site.components then File(site.components[name]) else Absent(name), r)
  }

  lemma {:induction false} RenderAllAt(ns: seq<Node>)
    ensures |RenderAll(ns)| == |ns| && forall k :: 0 <= k < |ns| ==> RenderAll(ns)[k] == Render(ns[k])
  {
    if ns != [] {
      RenderAllAt(ns[1..]);
    }
  }

  lemma IncludedLine(site: Site, stack: set<Path>, line: string)
    requires TargetOf(site, line).Include?
    ensures var t := TargetOf(site, line);
            Included(site, stack, t.name, t.path, Render(TraceLine(site, stack, line)))
  {
    var t := TargetOf(site, line);
    if t.path !in stack {
      var body := TraceFile(site, stack + {t.path}, t.path);
      RenderAllAt(body);
      var out := RenderAll(body);
      assert TraceLine(site, stack, line) == Expanded(t.name, t.path, body, ContentOf(site, t.path));
      assert forall k :: 0 <= k < |out| ==>
                           out[k] == Render(TraceLine(site, stack + {t.path}, ContentOf(site, t.path).lines[k]));
      assert Framed(site, stack + {t.path}, t.name, t.path, Render(TraceLine(site, stack, line)));
    }
  }

  lemma ComponentLine(site: Site, stack: set<Path>, line: string, name: string)
    requires TargetOf(site, line) == ComponentTarget(site, name)
    ensures Component(site, stack, name, Render(TraceLine(site, stack, line)))
  {
    GatedIff(site, name);
    if Gated(site, name) {
      var ns :| Undeclared(site, name, ns);
      assert TraceLine(site, stack, line) == Leaf(Skipped(name, ns));
    } else {
      IncludedLine(site, stack, line);
    }
  }

  /** What every line is replaced by: itself without a directive; a component, by the project's own file where
      there is one; for the last form the project's file as it stands, or the text given. */
  lemma LineExpandsTo(site: Site, stack: set<Path>, line: string)
    ensures var r := Render(TraceLine(site, stack, line));
            match site.parse(line)
            case NoDirective => r == line
            case SimpleCat(name) => Component(site, stack, name, r)
            case CatOrCat(project, component) =>
              if project in site.project then Included(site, stack, project, File(site.project[project]), r)
              else Component(site, stack, component, r)
            case CatOrEcho(project, text) =>
              if project in site.project then
                var c := ContentOf(site, File(site.project[project]));
                r == "<!-- BEGIN component: " + project + " -->\n"
                     + (JoinLines(c.lines) + if c.endsWithNewline then "\n" else "")
                     + "<!-- END component: " + project + " -->"
              else r == text
  {
    hide Component, Included, Gated;
    match site.parse(line)
    case SimpleCat(name) => ComponentLine(site, stack, line, name);
    case CatOrCat(project, component) =>
      if project in site.project {
        IncludedLine(site, stack, line);
      } else {
        ComponentLine(site, stack, line, component);
      }
    case _ =>
  }

  // ---- the code ----

  lemma {:induction false} RenderAllAppend(ns: seq<Node>, n: Node)
    ensures RenderAll(ns + [n]) == RenderAll(ns) + [Render(n)]
  {
    if ns != [] {
      RenderAllAppend(ns[1..], n);
      assert (ns + [n])[1..] == ns[1..] + [n];
    } else {
      assert (ns + [n])[1..] == [];
    }
  }

  /** `resolve_cat_line` */
  method ResolveCatLine(site: Site, line: string, stack: set<Path>) returns (r: string)
    ensures r == Render(TraceLine(site, stack, line))
    decreases Budget(site, stack), 0
  {
    match TargetOf(site, line) {
      case Literal(text) => r := text;
      case Include(name, path) =>
        if path in stack {
          return Circular(name);
        }
        if Readable(site, path) {
          VisitedShrinks(site, stack, path);
        }
        var content := ResolveFileContent(site, path, stack + {path});
        r := Wrap(name, content);
    }
  }

  /** `_resolve_file_content` */
  method ResolveFileContent(site: Site, path: Path, stack: set<Path>) returns (r: string)
    ensures r == Text(ContentOf(site, path), RenderAll(TraceFile(site, stack, path)))
    decreases if Readable(site, path) then Budget(site, stack) + 1 else 0, 0
  {
    if !Readable(site, path) {
      return "";
    }
    var c := site.files[path.id];
    var resolved: seq<string> := [];
    ghost var nodes := TraceFile(site, stack, path);
    for i := 0 to |c.lines|
      invariant resolved == RenderAll(nodes[..i])
    {
      var line := ResolveCatLine(site, c.lines[i], stack);
      RenderAllAppend(nodes[..i], nodes[i]);
      assert nodes[..i + 1] == nodes[..i] + [nodes[i]];
      resolved := resolved + [line];
    }
    assert nodes[..|c.lines|] == nodes;
    r := Text(c, resolved);
  }

  predicate IsFence(line: string) {
    Strip(line) == "---"
  }

  /** The first fence line at or after `from`, or the end. */
  function NextFence(lines: seq<string>, from: nat): (k: nat)
    requires from <= |lines|
    ensures from <= k <= |lines|
    ensures forall j :: from <= j < k ==> !IsFence(lines[j])
    ensures k < |lines| ==> IsFence(lines[k])
    decreases |lines| - from
  {
    if from == |lines| || IsFence(lines[from]) then from else NextFence(lines, from + 1)
  }

  /** Lines from the first fence through the second are kept; without a second fence, to the end. */
  predicate Kept(lines: seq<string>, k: nat) {
    var first := NextFence(lines, 0);
    first <= k && first < |lines| && k <= NextFence(lines, first + 1)
  }

  /** How many fences stand before line `k`, counting at most two. */
  function FencesBefore(lines: seq<string>, k: nat): nat {
    var first := NextFence(lines, 0);
    if k <= first then 0 else if first < |lines| && k <= NextFence(lines, first + 1) then 1 else 2
  }

  lemma FenceStep(lines: seq<string>, k: nat)
    requires k < |lines|
    ensures var n := FencesBefore(lines, k);
            && n <= 2 && FencesBefore(lines, k + 1) == (if n < 2 && IsFence(lines[k]) then n + 1 else n)
            && (Kept(lines, k) <==> n == 1 || (n == 0 && IsFence(lines[k])))
  {
  }

  lemma NoFenceYet(lines: seq<string>)
    ensures FencesBefore(lines, 0) == 0
  {
  }

  function ExpandedLine(site: Site, lines: seq<string>, k: nat): string
    requires k < |lines|
  {
    if Kept(lines, k) then lines[k] else Render(TraceLine(site, {}, lines[k]))
  }

  /** `resolve_skill_file`: every line outside the frontmatter is expanded, no line inside is. */
  method ResolveSkillFile(site: Site, skill: Content) returns (r: string)
    ensures exists out :: |out| == |skill.lines| && r == Text(skill, out)
              && forall k :: 0 <= k < |out| ==>
                   out[k] == ExpandedLine(site, skill.lines, k)
  {
    var lines := skill.lines;
    var resolved: seq<string> := [];
    hide NextFence, Kept, FencesBefore;
    NoFenceYet(lines);
    var inFrontmatter, done, fences := false, false, 0;
    for i := 0 to |lines|
      invariant |resolved| == i
      invariant forall k :: 0 <= k < i ==>
                  resolved[k] == ExpandedLine(site, lines, k)
      invariant fences == FencesBefore(lines, i)
      invariant inFrontmatter <==> fences == 1
      invariant done <==> fences == 2
    {
      FenceStep(lines, i);
      if !done && IsFence(lines[i]) {
        fences := fences + 1;
        inFrontmatter := fences == 1;
        if fences == 2 {
          inFrontmatter, done := false, true;
        }
        resolved := resolved + [lines[i]];
        continue;
      }
      if inFrontmatter {
        resolved := resolved + [lines[i]];
        continue;
      }
      var line := ResolveCatLine(site, lines[i], {});
      resolved := resolved + [line];
    }
    r := Text(skill, resolved);
  }
}
