/**
 Following references between theme colours. Each definition refers to at most one other, so a
 reference starts a chain that ends in a colour, ends in an unknown name, or never ends.
 */
module ThemeReferences {
  import opened Text

  datatype Mode = Light | Dark

  datatype Value = Number(n: real) | Plain(s: string) | ByMode(dark: string, light: string)

  datatype Theme = Theme(defs: map<string, string>, theme: map<string, Value>)

  datatype Outcome = Color(color: string) | Circular(name: string) | Unknown(name: string)

  /** What a value is before any reference is followed. */
  datatype Node = Literal(color: string) | Reference(name: string)

  function ClassifyText(s: string): Node {
    var name := Trim(s);
    if name == "transparent" || name == "none" then Literal("#00000000")
    else if "#" <= name || "rgb" <= name then Literal(name)
    else Reference(name)
  }

  function Classify(value: Value, mode: Mode): Node {
    match value
    case Number(_) => Literal("#000000")
    case Plain(s) => ClassifyText(s)
    case ByMode(dark, light) => ClassifyText(if mode == Dark then dark else light)
  }

  /** Shared definitions come before theme entries. */
  function Lookup(theme: Theme, name: string): Option<Value> {
    if name in theme.defs then Some(Plain(theme.defs[name]))
    else if name in theme.theme then Some(theme.theme[name])
    else None
  }

  /** The recursive resolver; the set of names seen grows within a finite set, so it terminates. */
  function Resolve(theme: Theme, value: Value, mode: Mode, seen: set<string>): Outcome
    decreases theme.defs.Keys + theme.theme.Keys - seen
  {
    match Classify(value, mode)
    case Literal(color) => Color(color)
    case Reference(name) =>
      if name in seen then Circular(name)
      else
        match Lookup(theme, name)
        case Some(next) => Resolve(theme, next, mode, seen + {name})
        case None => Unknown(name)
  }

  // ---------------------------------------------------------------- chains

  /** The node reached after `k` references, if the chain goes that far. */
  ghost function Follow(theme: Theme, mode: Mode, node: Node, k: nat): Option<Node>
    decreases k
  {
    if k == 0 then Some(node)
    else if node.Literal? || Lookup(theme, node.name).None? then None
    else Follow(theme, mode, Classify(Lookup(theme, node.name).value, mode), k - 1)
  }

  ghost predicate EndsIn(theme: Theme, mode: Mode, node: Node, color: string) {
    exists k: nat :: Follow(theme, mode, node, k) == Some(Literal(color))
  }

  ghost predicate EndsUnknown(theme: Theme, mode: Mode, node: Node, name: string) {
    Lookup(theme, name).None? && exists k: nat :: Follow(theme, mode, node, k) == Some(Reference(name))
  }

  ghost predicate NeverEnds(theme: Theme, mode: Mode, node: Node) {
    forall k: nat :: Follow(theme, mode, node, k).Some?
  }

  ghost predicate OnCycle(theme: Theme, mode: Mode, name: string) {
    exists k: nat :: k > 0 && Follow(theme, mode, Reference(name), k) == Some(Reference(name))
  }

  lemma {:induction false} FollowAdd(theme: Theme, mode: Mode, node: Node, j: nat, k: nat)
    ensures Follow(theme, mode, node, j + k) ==
            match Follow(theme, mode, node, j) case Some(n) => Follow(theme, mode, n, k) case None => None
    decreases j
  {
    if j > 0 && node.Reference? && Lookup(theme, node.name).Some? {
      FollowAdd(theme, mode, Classify(Lookup(theme, node.name).value, mode), j - 1, k);
    }
  }

  ghost predicate RefersTo(theme: Theme, mode: Mode, name: string, node: Node) {
    Lookup(theme, name).Some? && Classify(Lookup(theme, name).value, mode) == node
  }

  /** The names followed so far, in order, lead to `node`. */
  ghost predicate LeadsTo(theme: Theme, mode: Mode, path: seq<string>, node: Node) {
    && (forall i, j :: 0 <= i && j == i + 1 < |path| ==> RefersTo(theme, mode, path[i], Reference(path[j])))
    && (path != [] ==> RefersTo(theme, mode, path[|path| - 1], node))
  }

  lemma {:induction false} PathFollows(theme: Theme, mode: Mode, path: seq<string>, node: Node, i: nat)
    requires LeadsTo(theme, mode, path, node) && i < |path|
    ensures Follow(theme, mode, Reference(path[i]), |path| - i) == Some(node)
    decreases |path| - i
  {
    if i + 1 < |path| {
      assert RefersTo(theme, mode, path[i], Reference(path[i + 1]));
      PathFollows(theme, mode, path, node, i + 1);
    } else {
      assert RefersTo(theme, mode, path[i], node);
      assert Follow(theme, mode, node, 0) == Some(node);
    }
  }

  lemma LongerPath(theme: Theme, mode: Mode, path: seq<string>, name: string)
    requires LeadsTo(theme, mode, path, Reference(name)) && Lookup(theme, name).Some?
    ensures LeadsTo(theme, mode, path + [name], Classify(Lookup(theme, name).value, mode))
  {
    assert forall i :: 0 <= i < |path| ==> (path + [name])[i] == path[i];
  }

  lemma {:induction false} ResolveFrom(theme: Theme, value: Value, mode: Mode, path: seq<string>, seen: set<string>)
    requires seen == set name | name in path
    requires LeadsTo(theme, mode, path, Classify(value, mode))
    ensures
      var node := Classify(value, mode);
      match Resolve(theme, value, mode, seen)
      case Color(color) => EndsIn(theme, mode, node, color)
      case Unknown(name) => EndsUnknown(theme, mode, node, name)
      case Circular(name) => OnCycle(theme, mode, name) && exists k: nat :: Follow(theme, mode, node, k) == Some(Reference(name))
    decreases theme.defs.Keys + theme.theme.Keys - seen
  {
    var node := Classify(value, mode);
    assert Follow(theme, mode, node, 0) == Some(node);
    if node.Reference? {
      if node.name in seen {
        var i :| 0 <= i < |path| && path[i] == node.name;
        PathFollows(theme, mode, path, node, i);
      } else if Lookup(theme, node.name).Some? {
        var next := Lookup(theme, node.name).value;
        var longer := path + [node.name];
        LongerPath(theme, mode, path, node.name);
        assert seen + {node.name} == set name | name in longer;
        ResolveFrom(theme, next, mode, longer, seen + {node.name});
        forall k: nat ensures Follow(theme, mode, node, k + 1) == Follow(theme, mode, Classify(next, mode), k) {}
      }
    }
  }

  lemma {:induction false} CycleNeverEnds(theme: Theme, mode: Mode, name: string, m: nat, k: nat)
    requires m > 0 && Follow(theme, mode, Reference(name), m) == Some(Reference(name))
    ensures Follow(theme, mode, Reference(name), k).Some?
  {
    if k <= m {
      FollowAdd(theme, mode, Reference(name), k, m - k);
    } else {
      CycleNeverEnds(theme, mode, name, m, k - m);
      FollowAdd(theme, mode, Reference(name), m, k - m);
    }
  }

  lemma ReachesCycle(theme: Theme, mode: Mode, node: Node, name: string, j: nat)
    requires Follow(theme, mode, node, j) == Some(Reference(name)) && OnCycle(theme, mode, name)
    ensures NeverEnds(theme, mode, node)
  {
    var m: nat :| m > 0 && Follow(theme, mode, Reference(name), m) == Some(Reference(name));
    forall k: nat ensures Follow(theme, mode, node, k).Some? {
      if k <= j {
        FollowAdd(theme, mode, node, k, j - k);
      } else {
        FollowAdd(theme, mode, node, j, k - j);
        CycleNeverEnds(theme, mode, name, m, k - j);
      }
    }
  }

  /** A chain that stops, stops in one way. */
  lemma StopsOnce(theme: Theme, mode: Mode, node: Node, j: nat, x: Node, k: nat, y: Node)
    requires Follow(theme, mode, node, j) == Some(x) && Follow(theme, mode, x, 1) == None
    requires Follow(theme, mode, node, k) == Some(y) && Follow(theme, mode, y, 1) == None
    ensures x == y && Follow(theme, mode, node, j + 1) == None
  {
    FollowAdd(theme, mode, node, j, 1);
    FollowAdd(theme, mode, node, k, 1);
    if j < k {
      FollowAdd(theme, mode, node, j + 1, k - j - 1);
    } else if k < j {
      FollowAdd(theme, mode, node, k + 1, j - k - 1);
    }
  }

  lemma WhenItStops(theme: Theme, mode: Mode, node: Node, j: nat, x: Node)
    requires Follow(theme, mode, node, j) == Some(x) && Follow(theme, mode, x, 1) == None
    ensures forall color :: EndsIn(theme, mode, node, color) <==> x == Literal(color)
    ensures forall name :: EndsUnknown(theme, mode, node, name) <==> x == Reference(name)
    ensures !NeverEnds(theme, mode, node)
  {
    StopsOnce(theme, mode, node, j, x, j, x);
    assert x.Reference? ==> Lookup(theme, x.name).None? by {
      assert Follow(theme, mode, x, 0 + 1) == None;
    }
    forall color | EndsIn(theme, mode, node, color) ensures x == Literal(color) {
      var k: nat :| Follow(theme, mode, node, k) == Some(Literal(color));
      StopsOnce(theme, mode, node, j, x, k, Literal(color));
    }
    forall name | EndsUnknown(theme, mode, node, name) ensures x == Reference(name) {
      var k: nat :| Follow(theme, mode, node, k) == Some(Reference(name));
      StopsOnce(theme, mode, node, j, x, k, Reference(name));
    }
  }

  lemma WhenItNeverEnds(theme: Theme, mode: Mode, node: Node)
    requires NeverEnds(theme, mode, node)
    ensures forall color :: !EndsIn(theme, mode, node, color)
    ensures forall name :: !EndsUnknown(theme, mode, node, name)
  {
    forall k: nat ensures Follow(theme, mode, node, k).value.Reference? && Lookup(theme, Follow(theme, mode, node, k).value.name).Some? {
      assert Follow(theme, mode, node, k + 1).Some?;
      FollowAdd(theme, mode, node, k, 1);
    }
  }

  /** The resolver reports exactly the shape of the chain it is given; the three shapes exclude each other. */
  lemma ResolveByShape(theme: Theme, value: Value, mode: Mode)
    ensures
      var node := Classify(value, mode);
      var r := Resolve(theme, value, mode, {});
      && (forall color :: r == Color(color) <==> EndsIn(theme, mode, node, color))
      && (forall name :: r == Unknown(name) <==> EndsUnknown(theme, mode, node, name))
      && (r.Circular? <==> NeverEnds(theme, mode, node))
      && (r.Circular? ==> OnCycle(theme, mode, r.name))
  {
    var node := Classify(value, mode);
    var r := Resolve(theme, value, mode, {});
    ResolveFrom(theme, value, mode, [], {});
    match r
    case Color(color) =>
      var j: nat :| Follow(theme, mode, node, j) == Some(Literal(color));
      WhenItStops(theme, mode, node, j, Literal(color));
    case Unknown(name) =>
      var j: nat :| Follow(theme, mode, node, j) == Some(Reference(name));
      WhenItStops(theme, mode, node, j, Reference(name));
    case Circular(name) =>
      var j: nat :| Follow(theme, mode, node, j) == Some(Reference(name));
      ReachesCycle(theme, mode, node, name, j);
      WhenItNeverEnds(theme, mode, node);
  }

  // ---------------------------------------------------------------- what the resolver means by a value

  /** The side of a value that a mode shows. */
  function Side(value: Value, mode: Mode): Value {
    match (value, mode)
    case (ByMode(dark, _), Dark) => Plain(dark)
    case (ByMode(_, light), Light) => Plain(light)
    case _ => value
  }

  /** The theme as one mode shows it. */
  function InMode(theme: Theme, mode: Mode): Theme {
    Theme(theme.defs, map name | name in theme.theme :: Side(theme.theme[name], mode))
  }

  /** Resolving in a mode is resolving the theme as that mode shows it, where modes no longer matter. */
  lemma {:induction false} ResolveInMode(theme: Theme, value: Value, mode: Mode, other: Mode, seen: set<string>)
    ensures Resolve(theme, value, mode, seen) == Resolve(InMode(theme, mode), Side(value, mode), other, seen)
    decreases theme.defs.Keys + theme.theme.Keys - seen
  {
    var shown := InMode(theme, mode);
    assert shown.theme.Keys == theme.theme.Keys;
    var node := Classify(value, mode);
    assert Classify(Side(value, mode), other) == node;
    if node.Reference? && node.name !in seen && Lookup(theme, node.name).Some? {
      var next := Lookup(theme, node.name).value;
      assert Lookup(shown, node.name) == Some(Side(next, mode));
      ResolveInMode(theme, next, mode, other, seen + {node.name});
    }
  }

  /** Colours as they are written; nothing is looked up for them. */
  lemma LiteralValues(theme: Theme, s: string, n: real, mode: Mode, seen: set<string>)
    ensures "#" <= Trim(s) || "rgb" <= Trim(s) ==> Resolve(theme, Plain(s), mode, seen) == Color(Trim(s))
    ensures Trim(s) == "transparent" || Trim(s) == "none" ==> Resolve(theme, Plain(s), mode, seen) == Color("#00000000")
    ensures Resolve(theme, Number(n), mode, seen) == Color("#000000")
  {
    assert "transparent"[0] == 't' && "none"[0] == 'n' && "rgb"[0] == 'r' && "#"[0] == '#';
  }

  /** A text that is not a colour as it is written. */
  predicate IsName(s: string) {
    Trim(s) != "transparent" && Trim(s) != "none" && !("#" <= Trim(s)) && !("rgb" <= Trim(s))
  }

  /** The value a name stands for: a definition before a theme entry. */
  function Meaning(theme: Theme, name: string): Option<Value> {
    if name in theme.theme && name !in theme.defs then Some(theme.theme[name])
    else if name in theme.defs then Some(Plain(theme.defs[name]))
    else None
  }

  /** A name that stands for nothing is unknown; any other resolves to the colour, or to the unknown name, of what it stands for. */
  lemma NameValues(theme: Theme, s: string, mode: Mode)
    requires IsName(s)
    ensures
      var r := Resolve(theme, Plain(s), mode, {});
      match Meaning(theme, Trim(s))
      case None => r == Unknown(Trim(s))
      case Some(value) =>
        && (forall color :: r == Color(color) <==> Resolve(theme, value, mode, {}) == Color(color))
        && (forall name :: r == Unknown(name) <==> Resolve(theme, value, mode, {}) == Unknown(name))
  {
    if Meaning(theme, Trim(s)).Some? {
      var value := Meaning(theme, Trim(s)).value;
      ResolveByShape(theme, Plain(s), mode);
      ResolveByShape(theme, value, mode);
      FollowName(theme, mode, Trim(s), Classify(value, mode));
    }
  }

  lemma FollowName(theme: Theme, mode: Mode, name: string, next: Node)
    requires Lookup(theme, name).Some? && Classify(Lookup(theme, name).value, mode) == next
    ensures forall color :: EndsIn(theme, mode, Reference(name), color) <==> EndsIn(theme, mode, next, color)
    ensures forall x :: EndsUnknown(theme, mode, Reference(name), x) <==> EndsUnknown(theme, mode, next, x)
  {
    var node := Reference(name);
    forall k: nat ensures Follow(theme, mode, node, k + 1) == Follow(theme, mode, next, k) {}
    assert Follow(theme, mode, node, 0) == Some(node);
    forall color ensures EndsIn(theme, mode, node, color) <==> EndsIn(theme, mode, next, color) {
      if k: nat :| Follow(theme, mode, node, k) == Some(Literal(color)) {
        assert k > 0 && Follow(theme, mode, next, k - 1) == Some(Literal(color));
      }
      if k: nat :| Follow(theme, mode, next, k) == Some(Literal(color)) {
        assert Follow(theme, mode, node, k + 1) == Some(Literal(color));
      }
    }
    forall x ensures EndsUnknown(theme, mode, node, x) <==> EndsUnknown(theme, mode, next, x) {
      if Lookup(theme, x).None? {
        if k: nat :| Follow(theme, mode, node, k) == Some(Reference(x)) {
          assert k > 0 && Follow(theme, mode, next, k - 1) == Some(Reference(x));
        }
        if k: nat :| Follow(theme, mode, next, k) == Some(Reference(x)) {
          assert Follow(theme, mode, node, k + 1) == Some(Reference(x));
        }
      }
    }
  }

  // ---------------------------------------------------------------- a whole theme

  const THINKING_OPACITY: string := "thinkingOpacity"

  datatype Resolved = Resolved(colors: map<string, string>, thinkingOpacity: Option<real>)

  /** The entry at `n` is the first, in the order of `keys`, that does not resolve to a colour. */
  ghost predicate FirstFailure(theme: Theme, keys: seq<string>, mode: Mode, n: nat)
    requires forall key :: key in keys ==> key in theme.theme
  {
    && n < |keys| && keys[n] != THINKING_OPACITY
    && !Resolve(theme, theme.theme[keys[n]], mode, {}).Color?
    && forall j :: 0 <= j < n && keys[j] != THINKING_OPACITY ==> Resolve(theme, theme.theme[keys[j]], mode, {}).Color?
  }

  /**
   Resolves every entry but the opacity, in the order of `keys`. It succeeds exactly when every chain
   ends in a colour, and otherwise reports what the first failing entry met.
   */
  method ResolveTheme(theme: Theme, keys: seq<string>, mode: Mode) returns (r: Result<Resolved, Outcome>)
    requires forall key :: key in keys <==> key in theme.theme
    ensures r.Ok? <==> forall key :: key in theme.theme && key != "thinkingOpacity" ==>
                                       exists color :: EndsIn(theme, mode, Classify(theme.theme[key], mode), color)
    ensures r.Ok? ==>
              && r.value.colors.Keys == theme.theme.Keys - {"thinkingOpacity"}
              && (forall key :: key in r.value.colors ==> EndsIn(theme, mode, Classify(theme.theme[key], mode), r.value.colors[key]))
              && r.value.thinkingOpacity == Opacity(theme)
    ensures r.Err? ==> exists n: nat :: FirstFailure(theme, keys, mode, n) && r.error == Resolve(theme, theme.theme[keys[n]], mode, {})
  {
    var colors: map<string, string> := map[];
    var opacity: Option<real> := None;
    for i := 0 to |keys|
      invariant colors.Keys == (set key | key in keys[..i]) - {THINKING_OPACITY}
      invariant forall key :: key in colors ==> Resolve(theme, theme.theme[key], mode, {}) == Color(colors[key])
      invariant opacity == if THINKING_OPACITY in keys[..i] then Opacity(theme) else None
    {
      var key := keys[i];
      assert keys[..i + 1] == keys[..i] + [key];
      if key == THINKING_OPACITY {
        if theme.theme[key].Number? {
          opacity := Some(theme.theme[key].n);
        }
      } else {
        ResolveByShape(theme, theme.theme[key], mode);
        var outcome := Resolve(theme, theme.theme[key], mode, {});
        if !outcome.Color? {
          forall j | 0 <= j < i && keys[j] != THINKING_OPACITY ensures Resolve(theme, theme.theme[keys[j]], mode, {}).Color? {
            assert keys[j] in keys[..i];
          }
          assert FirstFailure(theme, keys, mode, i);
          return Err(outcome);
        }
        colors := colors[key := outcome.color];
      }
    }
    assert keys[..|keys|] == keys;
    forall key | key in colors ensures EndsIn(theme, mode, Classify(theme.theme[key], mode), colors[key]) {
      ResolveByShape(theme, theme.theme[key], mode);
    }
    return Ok(Resolved(colors, opacity));
  }

  function Opacity(theme: Theme): Option<real> {
    if THINKING_OPACITY in theme.theme && theme.theme[THINKING_OPACITY].Number? then Some(theme.theme[THINKING_OPACITY].n) else None
  }
}
