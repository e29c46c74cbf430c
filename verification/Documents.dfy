/** Targeted rewriting of JSON documents (pii/document/document.go): only the values on the listed paths are touched. */
module Documents {
  import opened Wrappers
  import opened Sequences

  /** A parsed document; Other stands for null, booleans and numbers. */
  datatype Json = Other(text: string) | Str(s: string) | Arr(items: seq<Json>) | Obj(fields: map<string, Json>)

  /** One step down a document, and one segment of a rule. */
  datatype Step = Key(name: string) | At(index: nat)

  datatype Segment = Named(name: string) | AnyIndex | Deep

  datatype Kind = Text | JsonText | JsonTree

  datatype Rule = Rule(path: seq<Segment>, kind: Kind)

  /** What is done to a piece of text, none when it fails; and the JSON text format. */
  datatype Env = Env(transform: string -> Option<string>, parse: string -> Option<Json>, render: Json -> string)

  // ---------------------------------------------------------------------------------------------
  // The rewriting.
  // ---------------------------------------------------------------------------------------------

  /** The outcome of rewriting all elements: nothing if one of them failed. */
  function AllItems(rs: seq<Option<Json>>): Option<Json> {
    if exists i :: 0 <= i < |rs| && rs[i].None? then None
    else Some(Arr(seq(|rs|, i requires 0 <= i < |rs| && rs[i].Some? => rs[i].value)))
  }

  function AllFields(rs: map<string, Option<Json>>): Option<Json> {
    if exists k :: k in rs && rs[k].None? then None
    else Some(Obj(map k | k in rs && rs[k].Some? :: rs[k].value))
  }

  function AsText(r: Option<string>): Option<Json> {
    match r case None => None case Some(s) => Some(Str(s))
  }

  /** Rewrites every text in a value and keeps its keys. */
  function TransformValue(v: Json, env: Env): Option<Json> {
    match v
    case Other(_) => Some(v)
    case Str(s) => AsText(env.transform(s))
    case Arr(items) => AllItems(seq(|items|, i requires 0 <= i < |items| => TransformValue(items[i], env)))
    case Obj(fields) => AllFields(map k | k in fields :: TransformValue(fields[k], env))
  }

  /** Rewrites the values of a text that is itself JSON; a text that does not parse stays as it is. */
  function TransformText(s: string, env: Env): Option<string> {
    match env.parse(s)
    case None => Some(s)
    case Some(v) =>
      match TransformValue(v, env)
      case None => None
      case Some(w) => Some(env.render(w))
  }

  function ApplyTransform(v: Json, kind: Kind, env: Env): Option<Json> {
    match kind
    case JsonTree => if v.Arr? || v.Obj? then TransformValue(v, env) else Some(v)
    case Text => if v.Str? then AsText(env.transform(v.s)) else Some(v)
    case JsonText => if v.Str? then AsText(TransformText(v.s, env)) else Some(v)
  }

  /** A path that walk can follow: not empty, and after ** comes a name. */
  predicate WellFormed(path: seq<Segment>) {
    path != [] && forall i :: 0 <= i < |path| && path[i].Deep? ==> i + 1 < |path| && path[i + 1].Named?
  }

  /** Follows a path and rewrites what it leads to. */
  function Walk(node: Json, path: seq<Segment>, kind: Kind, env: Env): Option<Json>
    requires WellFormed(path)
    decreases node, |path|, 1
  {
    var rest := path[1..];
    assert forall i :: 0 <= i < |rest| ==> rest[i] == path[i + 1];
    match path[0]
    case Named(name) =>
      if !node.Obj? || name !in node.fields then Some(node)
      else
        var child := node.fields[name];
        (match if rest == [] then ApplyTransform(child, kind, env) else Walk(child, rest, kind, env)
         case None => None
         case Some(r) => Some(Obj(node.fields[name := r])))
    case AnyIndex =>
      if !node.Arr? then Some(node)
      else AllItems(seq(|node.items|, i requires 0 <= i < |node.items| =>
                          if rest == [] then ApplyTransform(node.items[i], kind, env) else Walk(node.items[i], rest, kind, env)))
    case Deep => WalkDeep(node, rest, kind, env)
  }

  /** Follows a path from every level on, but not into the fields that it starts with. */
  function WalkDeep(node: Json, rest: seq<Segment>, kind: Kind, env: Env): Option<Json>
    requires WellFormed(rest) && rest[0].Named?
    decreases node, |rest| + 1, 0
  {
    match node
    case Obj(fields) =>
      (match Walk(node, rest, kind, env)
       case None => None
       case Some(here) =>
         AllFields(map k | k in fields ::
                     if k == rest[0].name && here.Obj? && k in here.fields then Some(here.fields[k]) else WalkDeep(fields[k], rest, kind, env)))
    case Arr(items) => AllItems(seq(|items|, i requires 0 <= i < |items| => WalkDeep(items[i], rest, kind, env)))
    case _ => Some(node)
  }

  // ---------------------------------------------------------------------------------------------
  // Selections of paths, and one pass over a document.
  // ---------------------------------------------------------------------------------------------

  /** What is to be done to the value at a path, none for most of them. */
  type Selection = seq<Step> -> Option<Kind>

  /** The selection as seen from one step down. */
  ghost function Under(sel: Selection, s: Step): Selection { (q: seq<Step>) => sel([s] + q) }

  /** A path of the document fits the path of a rule. A step that ** skips is not the name that follows it. */
  ghost predicate Matches(q: seq<Step>, path: seq<Segment>)
    decreases |q| + |path|
  {
    if path == [] then q == []
    else
      match path[0]
      case Named(name) => q != [] && q[0] == Key(name) && Matches(q[1..], path[1..])
      case AnyIndex => q != [] && q[0].At? && Matches(q[1..], path[1..])
      case Deep =>
        || Matches(q, path[1..])
        || (q != [] && !(|path| > 1 && path[1].Named? && q[0] == Key(path[1].name)) && Matches(q[1..], path))
  }

  ghost function Selected(path: seq<Segment>, kind: Kind): Selection {
    (q: seq<Step>) => if Matches(q, path) then Some(kind) else None
  }

  /** Rewrites a document in one pass, each value as the selection says. */
  ghost function OnePass(node: Json, sel: Selection, env: Env): Option<Json> {
    match node
    case Other(_) => Some(node)
    case Str(s) =>
      (match sel([])
       case Some(Text) => AsText(env.transform(s))
       case Some(JsonText) => AsText(TransformText(s, env))
       case _ => Some(node))
    case Arr(items) =>
      if sel([]) == Some(JsonTree) then TransformValue(node, env)
      else AllItems(seq(|items|, i requires 0 <= i < |items| => OnePass(items[i], Under(sel, At(i)), env)))
    case Obj(fields) =>
      if sel([]) == Some(JsonTree) then TransformValue(node, env)
      else AllFields(map k | k in fields :: OnePass(fields[k], Under(sel, Key(k)), env))
  }

  /** Rewriting elements to what they are. */
  lemma AllItemsUnchanged(rs: seq<Option<Json>>, items: seq<Json>)
    requires |rs| == |items| && forall i :: 0 <= i < |rs| ==> rs[i] == Some(items[i])
    ensures AllItems(rs) == Some(Arr(items))
  {
    assert seq(|rs|, i requires 0 <= i < |rs| && rs[i].Some? => rs[i].value) == items;
  }

  lemma AllFieldsUnchanged(rs: map<string, Option<Json>>, fields: map<string, Json>)
    requires rs.Keys == fields.Keys && forall k :: k in rs ==> rs[k] == Some(fields[k])
    ensures AllFields(rs) == Some(Obj(fields))
  {
    assert (map k | k in rs && rs[k].Some? :: rs[k].value) == fields;
  }

  /** Selections that agree give the same pass. */
  lemma {:induction false} PassSame(node: Json, f: Selection, g: Selection, env: Env)
    requires forall q :: f(q) == g(q)
    ensures OnePass(node, f, env) == OnePass(node, g, env)
  {
    match node
    case Arr(items) =>
      forall i | 0 <= i < |items| ensures OnePass(items[i], Under(f, At(i)), env) == OnePass(items[i], Under(g, At(i)), env) {
        PassSame(items[i], Under(f, At(i)), Under(g, At(i)), env);
      }
      assert seq(|items|, i requires 0 <= i < |items| => OnePass(items[i], Under(f, At(i)), env))
          == seq(|items|, i requires 0 <= i < |items| => OnePass(items[i], Under(g, At(i)), env));
    case Obj(fields) =>
      forall k | k in fields ensures OnePass(fields[k], Under(f, Key(k)), env) == OnePass(fields[k], Under(g, Key(k)), env) {
        PassSame(fields[k], Under(f, Key(k)), Under(g, Key(k)), env);
      }
      assert (map k | k in fields :: OnePass(fields[k], Under(f, Key(k)), env))
          == (map k | k in fields :: OnePass(fields[k], Under(g, Key(k)), env));
    case _ =>
  }

  /** Where nothing is selected nothing changes. */
  lemma {:induction false} PassNothing(node: Json, f: Selection, env: Env)
    requires forall q :: f(q) == None
    ensures OnePass(node, f, env) == Some(node)
  {
    match node
    case Arr(items) =>
      forall i | 0 <= i < |items| ensures OnePass(items[i], Under(f, At(i)), env) == Some(items[i]) {
        PassNothing(items[i], Under(f, At(i)), env);
      }
      AllItemsUnchanged(seq(|items|, i requires 0 <= i < |items| => OnePass(items[i], Under(f, At(i)), env)), items);
    case Obj(fields) =>
      forall k | k in fields ensures OnePass(fields[k], Under(f, Key(k)), env) == Some(fields[k]) {
        PassNothing(fields[k], Under(f, Key(k)), env);
      }
      AllFieldsUnchanged(map k | k in fields :: OnePass(fields[k], Under(f, Key(k)), env), fields);
    case _ =>
  }

  // ---------------------------------------------------------------------------------------------
  // Following a path is one pass.
  // ---------------------------------------------------------------------------------------------

  lemma ApplyIsPass(v: Json, kind: Kind, env: Env)
    ensures ApplyTransform(v, kind, env) == OnePass(v, Selected([], kind), env)
  {
    var f := Selected([], kind);
    match v
    case Arr(items) =>
      if kind != JsonTree {
        forall i | 0 <= i < |items| ensures OnePass(items[i], Under(f, At(i)), env) == Some(items[i]) {
          PassNothing(items[i], Under(f, At(i)), env);
        }
        AllItemsUnchanged(seq(|items|, i requires 0 <= i < |items| => OnePass(items[i], Under(f, At(i)), env)), items);
      }
    case Obj(fields) =>
      if kind != JsonTree {
        forall k | k in fields ensures OnePass(fields[k], Under(f, Key(k)), env) == Some(fields[k]) {
          PassNothing(fields[k], Under(f, Key(k)), env);
        }
        AllFieldsUnchanged(map k | k in fields :: OnePass(fields[k], Under(f, Key(k)), env), fields);
      }
    case _ =>
  }

  /** What Walk does one step down. */
  ghost function Onward(child: Json, rest: seq<Segment>, kind: Kind, env: Env): Option<Json>
    requires rest == [] || WellFormed(rest)
  {
    if rest == [] then ApplyTransform(child, kind, env) else Walk(child, rest, kind, env)
  }

  /** A selection that the rest of a path makes, one step down. */
  lemma UnderStep(path: seq<Segment>, kind: Kind, s: Step)
    requires path != [] && !path[0].Deep?
    ensures (path[0].Named? && s == Key(path[0].name)) || (path[0].AnyIndex? && s.At?) ==>
              forall q :: Under(Selected(path, kind), s)(q) == Selected(path[1..], kind)(q)
    ensures !((path[0].Named? && s == Key(path[0].name)) || (path[0].AnyIndex? && s.At?)) ==>
              forall q :: Under(Selected(path, kind), s)(q) == None
  {
    assert forall q: seq<Step> :: ([s] + q)[1..] == q;
  }

  lemma {:induction false} WalkIsPass(node: Json, path: seq<Segment>, kind: Kind, env: Env)
    requires WellFormed(path)
    ensures Walk(node, path, kind, env) == OnePass(node, Selected(path, kind), env)
    decreases node, |path|, 1
  {
    var f, rest := Selected(path, kind), path[1..];
    assert forall i :: 0 <= i < |rest| ==> rest[i] == path[i + 1];
    match path[0]
    case Named(name) => NamedIsPass(node, name, path, kind, env);
    case AnyIndex => IndexIsPass(node, path, kind, env);
    case Deep => DeepIsPass(node, path, kind, env);
  }

  lemma {:induction false} OnwardIsPass(child: Json, rest: seq<Segment>, kind: Kind, env: Env)
    requires rest == [] || WellFormed(rest)
    ensures Onward(child, rest, kind, env) == OnePass(child, Selected(rest, kind), env)
    decreases child, |rest|, 2
  {
    if rest == [] {
      ApplyIsPass(child, kind, env);
    } else {
      WalkIsPass(child, rest, kind, env);
    }
  }

  lemma {:induction false} NamedIsPass(node: Json, name: string, path: seq<Segment>, kind: Kind, env: Env)
    requires WellFormed(path) && path[0] == Named(name)
    ensures Walk(node, path, kind, env) == OnePass(node, Selected(path, kind), env)
    decreases node, |path|, 0
  {
    var f, rest := Selected(path, kind), path[1..];
    assert forall i :: 0 <= i < |rest| ==> rest[i] == path[i + 1];
    if !node.Obj? || name !in node.fields {
      NoField(node, name, path, kind, env);
    } else {
      var fields := node.fields;
      forall k | k in fields
        ensures OnePass(fields[k], Under(f, Key(k)), env) == if k == name then Onward(fields[k], rest, kind, env) else Some(fields[k])
      {
        UnderStep(path, kind, Key(k));
        if k == name {
          OnwardIsPass(fields[k], rest, kind, env);
          PassSame(fields[k], Under(f, Key(k)), Selected(rest, kind), env);
        } else {
          PassNothing(fields[k], Under(f, Key(k)), env);
        }
      }
      OneField(map k | k in fields :: OnePass(fields[k], Under(f, Key(k)), env), fields, name, Onward(fields[name], rest, kind, env));
    }
  }

  lemma OneField(rs: map<string, Option<Json>>, fields: map<string, Json>, name: string, r: Option<Json>)
    requires rs.Keys == fields.Keys && name in fields
    requires forall k :: k in rs ==> rs[k] == if k == name then r else Some(fields[k])
    ensures AllFields(rs) == match r case None => None case Some(v) => Some(Obj(fields[name := v]))
  {
    if r.Some? {
      assert (map k | k in rs && rs[k].Some? :: rs[k].value) == fields[name := r.value];
    }
  }

  lemma NoField(node: Json, name: string, path: seq<Segment>, kind: Kind, env: Env)
    requires path != [] && path[0] == Named(name) && (!node.Obj? || name !in node.fields)
    ensures OnePass(node, Selected(path, kind), env) == Some(node)
  {
    var f := Selected(path, kind);
    match node
    case Arr(items) =>
      forall i | 0 <= i < |items| ensures OnePass(items[i], Under(f, At(i)), env) == Some(items[i]) {
        UnderStep(path, kind, At(i));
        PassNothing(items[i], Under(f, At(i)), env);
      }
      AllItemsUnchanged(seq(|items|, i requires 0 <= i < |items| => OnePass(items[i], Under(f, At(i)), env)), items);
    case Obj(fields) =>
      forall k | k in fields ensures OnePass(fields[k], Under(f, Key(k)), env) == Some(fields[k]) {
        UnderStep(path, kind, Key(k));
        PassNothing(fields[k], Under(f, Key(k)), env);
      }
      AllFieldsUnchanged(map k | k in fields :: OnePass(fields[k], Under(f, Key(k)), env), fields);
    case _ =>
  }

  lemma {:induction false} IndexIsPass(node: Json, path: seq<Segment>, kind: Kind, env: Env)
    requires WellFormed(path) && path[0] == AnyIndex
    ensures Walk(node, path, kind, env) == OnePass(node, Selected(path, kind), env)
    decreases node, |path|, 0
  {
    var f, rest := Selected(path, kind), path[1..];
    assert forall i :: 0 <= i < |rest| ==> rest[i] == path[i + 1];
    match node
    case Arr(items) =>
      forall i | 0 <= i < |items| ensures OnePass(items[i], Under(f, At(i)), env) == Onward(items[i], rest, kind, env) {
        UnderStep(path, kind, At(i));
        OnwardIsPass(items[i], rest, kind, env);
        PassSame(items[i], Under(f, At(i)), Selected(rest, kind), env);
      }
      assert seq(|items|, i requires 0 <= i < |items| => OnePass(items[i], Under(f, At(i)), env))
          == seq(|items|, i requires 0 <= i < |items| =>
                   if rest == [] then ApplyTransform(items[i], kind, env) else Walk(items[i], rest, kind, env));
    case Obj(fields) =>
      forall k | k in fields ensures OnePass(fields[k], Under(f, Key(k)), env) == Some(fields[k]) {
        UnderStep(path, kind, Key(k));
        PassNothing(fields[k], Under(f, Key(k)), env);
      }
      AllFieldsUnchanged(map k | k in fields :: OnePass(fields[k], Under(f, Key(k)), env), fields);
    case _ =>
  }

  /** One step down under **: the name that follows it leads on along the path, any other step may be skipped. */
  lemma UnderDeep(path: seq<Segment>, kind: Kind, s: Step)
    requires WellFormed(path) && path[0].Deep?
    ensures s == Key(path[1].name) ==> forall q :: Under(Selected(path, kind), s)(q) == Under(Selected(path[1..], kind), s)(q)
    ensures s != Key(path[1].name) ==> forall q :: Under(Selected(path, kind), s)(q) == Selected(path, kind)(q)
  {
    forall q: seq<Step>
      ensures Matches([s] + q, path) == if s == Key(path[1].name) then Matches([s] + q, path[1..]) else Matches(q, path)
    {
      var p := [s] + q;
      assert p[1..] == q && p[0] == s && path[1..][0] == path[1];
      assert s != Key(path[1].name) ==> !Matches(p, path[1..]);
    }
  }

  lemma DeepFields(fields: map<string, Json>, rest: seq<Segment>, kind: Kind, env: Env, rs: map<string, Option<Json>>)
    requires WellFormed(rest) && rest[0].Named? && rs.Keys == fields.Keys && (rest[1..] == [] || WellFormed(rest[1..]))
    requires forall k :: k in fields ==>
               rs[k] == if k == rest[0].name then Onward(fields[k], rest[1..], kind, env) else WalkDeep(fields[k], rest, kind, env)
    ensures WalkDeep(Obj(fields), rest, kind, env) == AllFields(rs)
  {
    var here := Walk(Obj(fields), rest, kind, env);
    if here.Some? {
      assert rs == map k | k in fields ::
          if k == rest[0].name && here.value.Obj? && k in here.value.fields then Some(here.value.fields[k]) else WalkDeep(fields[k], rest, kind, env);
    }
  }

  lemma {:induction false} DeepIsPass(node: Json, path: seq<Segment>, kind: Kind, env: Env)
    requires WellFormed(path) && path[0] == Deep
    ensures WellFormed(path[1..]) && path[1].Named?
    ensures WalkDeep(node, path[1..], kind, env) == OnePass(node, Selected(path, kind), env)
    decreases node, |path|, 0
  {
    var f, rest, name := Selected(path, kind), path[1..], path[1].name;
    assert forall i :: 0 <= i < |rest| ==> rest[i] == path[i + 1];
    assert !Matches([], rest) && f([]) == None;
    match node
    case Arr(items) =>
      forall i | 0 <= i < |items| ensures OnePass(items[i], Under(f, At(i)), env) == WalkDeep(items[i], rest, kind, env) {
        UnderDeep(path, kind, At(i));
        DeepIsPass(items[i], path, kind, env);
        PassSame(items[i], Under(f, At(i)), f, env);
      }
      assert seq(|items|, i requires 0 <= i < |items| => OnePass(items[i], Under(f, At(i)), env))
          == seq(|items|, i requires 0 <= i < |items| => WalkDeep(items[i], rest, kind, env));
    case Obj(fields) =>
      assert forall i :: 0 <= i < |rest[1..]| ==> rest[1..][i] == rest[i + 1];
      forall k | k in fields
        ensures OnePass(fields[k], Under(f, Key(k)), env) ==
                if k == name then Onward(fields[k], rest[1..], kind, env) else WalkDeep(fields[k], rest, kind, env)
      {
        UnderDeep(path, kind, Key(k));
        if k == name {
          UnderStep(rest, kind, Key(k));
          OnwardIsPass(fields[k], rest[1..], kind, env);
          PassSame(fields[k], Under(f, Key(k)), Selected(rest[1..], kind), env);
        } else {
          DeepIsPass(fields[k], path, kind, env);
          PassSame(fields[k], Under(f, Key(k)), f, env);
        }
      }
      DeepFields(fields, rest, kind, env, map k | k in fields :: OnePass(fields[k], Under(f, Key(k)), env));
    case _ =>
  }

  // ---------------------------------------------------------------------------------------------
  // Several rules.
  // ---------------------------------------------------------------------------------------------

  /** No value is selected twice: no path by both, and nothing by one below a value that the other rewrites whole. */
  ghost predicate Apart(f: Selection, g: Selection) {
    && (forall q :: f(q) == None || g(q) == None)
    && (forall q, r {:trigger f(q), g(q + r)} :: f(q) == Some(JsonTree) ==> g(q + r) == None)
    && (forall q, r {:trigger g(q), f(q + r)} :: g(q) == Some(JsonTree) ==> f(q + r) == None)
  }

  ghost function Either(f: Selection, g: Selection): Selection {
    (q: seq<Step>) => if f(q).Some? then f(q) else g(q)
  }

  lemma ApartUnder(f: Selection, g: Selection, s: Step)
    requires Apart(f, g)
    ensures Apart(Under(f, s), Under(g, s))
  {
    forall q, r ensures Under(f, s)(q) == Some(JsonTree) ==> Under(g, s)(q + r) == None {
      assert [s] + (q + r) == ([s] + q) + r;
    }
    forall q, r ensures Under(g, s)(q) == Some(JsonTree) ==> Under(f, s)(q + r) == None {
      assert [s] + (q + r) == ([s] + q) + r;
    }
  }

  ghost function Then(r: Option<Json>, g: Selection, env: Env): Option<Json> {
    match r case None => None case Some(v) => OnePass(v, g, env)
  }

  lemma NothingBelow(node: Json, f: Selection, g: Selection, env: Env)
    requires Apart(f, g) && f([]) == Some(JsonTree)
    ensures forall v :: OnePass(v, g, env) == Some(v)
  {
    forall q ensures g(q) == None {
      assert [] + q == q;
      assert f([]) == Some(JsonTree) ==> g([] + q) == None;
    }
    forall v ensures OnePass(v, g, env) == Some(v) {
      PassNothing(v, g, env);
    }
  }

  /** Two passes over different values are one pass. */
  lemma {:induction false} PassesCompose(node: Json, f: Selection, g: Selection, env: Env)
    requires Apart(f, g)
    ensures Then(OnePass(node, f, env), g, env) == OnePass(node, Either(f, g), env)
  {
    var h := Either(f, g);
    if f([]) == Some(JsonTree) && (node.Arr? || node.Obj?) {
      NothingBelow(node, f, g, env);
    } else if g([]) == Some(JsonTree) && (node.Arr? || node.Obj?) {
      NothingBelow(node, g, f, env);
    } else {
      match node
      case Arr(items) =>
        forall i | 0 <= i < |items|
          ensures Then(OnePass(items[i], Under(f, At(i)), env), Under(g, At(i)), env) == OnePass(items[i], Under(h, At(i)), env)
        {
          ApartUnder(f, g, At(i));
          PassesCompose(items[i], Under(f, At(i)), Under(g, At(i)), env);
          PassSame(items[i], Either(Under(f, At(i)), Under(g, At(i))), Under(h, At(i)), env);
        }
        ComposeItems(items, f, g, env);
      case Obj(fields) =>
        forall k | k in fields
          ensures Then(OnePass(fields[k], Under(f, Key(k)), env), Under(g, Key(k)), env) == OnePass(fields[k], Under(h, Key(k)), env)
        {
          ApartUnder(f, g, Key(k));
          PassesCompose(fields[k], Under(f, Key(k)), Under(g, Key(k)), env);
          PassSame(fields[k], Either(Under(f, Key(k)), Under(g, Key(k))), Under(h, Key(k)), env);
        }
        ComposeFields(fields, f, g, env);
      case _ =>
    }
  }

  lemma ComposeItems(items: seq<Json>, f: Selection, g: Selection, env: Env)
    requires f([]) != Some(JsonTree) && g([]) != Some(JsonTree)
    requires forall i :: 0 <= i < |items| ==>
               Then(OnePass(items[i], Under(f, At(i)), env), Under(g, At(i)), env) == OnePass(items[i], Under(Either(f, g), At(i)), env)
    ensures Then(OnePass(Arr(items), f, env), g, env) == OnePass(Arr(items), Either(f, g), env)
  {
    var first := seq(|items|, i requires 0 <= i < |items| => OnePass(items[i], Under(f, At(i)), env));
    var both := seq(|items|, i requires 0 <= i < |items| => OnePass(items[i], Under(Either(f, g), At(i)), env));
    assert OnePass(Arr(items), f, env) == AllItems(first);
    assert OnePass(Arr(items), Either(f, g), env) == AllItems(both);
    if AllItems(first) == None {
      var i :| 0 <= i < |first| && first[i].None?;
      assert both[i].None?;
    } else {
      var mid := AllItems(first).value.items;
      var second := seq(|mid|, i requires 0 <= i < |mid| => OnePass(mid[i], Under(g, At(i)), env));
      assert OnePass(Arr(mid), g, env) == AllItems(second);
      forall i | 0 <= i < |items| ensures second[i] == both[i] {
        assert first[i] == Some(mid[i]);
      }
      assert second == both;
    }
  }

  lemma ComposeFields(fields: map<string, Json>, f: Selection, g: Selection, env: Env)
    requires f([]) != Some(JsonTree) && g([]) != Some(JsonTree)
    requires forall k :: k in fields ==>
               Then(OnePass(fields[k], Under(f, Key(k)), env), Under(g, Key(k)), env) == OnePass(fields[k], Under(Either(f, g), Key(k)), env)
    ensures Then(OnePass(Obj(fields), f, env), g, env) == OnePass(Obj(fields), Either(f, g), env)
  {
    var first := map k | k in fields :: OnePass(fields[k], Under(f, Key(k)), env);
    var both := map k | k in fields :: OnePass(fields[k], Under(Either(f, g), Key(k)), env);
    assert OnePass(Obj(fields), f, env) == AllFields(first);
    assert OnePass(Obj(fields), Either(f, g), env) == AllFields(both);
    ComposeAll(first, both, g, env);
  }

  /** A second pass over fields that came out of a first one. */
  lemma ComposeAll(first: map<string, Option<Json>>, both: map<string, Option<Json>>, g: Selection, env: Env)
    requires g([]) != Some(JsonTree) && first.Keys == both.Keys
    requires forall k :: k in first ==> Then(first[k], Under(g, Key(k)), env) == both[k]
    ensures Then(AllFields(first), g, env) == AllFields(both)
  {
    if k :| k in first && first[k].None? {
      assert both[k].None?;
    } else {
      var mid := AllPresent(first);
      SecondFields(mid, both, g, env);
    }
  }

  lemma AllPresent(rs: map<string, Option<Json>>) returns (mid: map<string, Json>)
    requires forall k :: k in rs ==> rs[k].Some?
    ensures AllFields(rs) == Some(Obj(mid)) && mid.Keys == rs.Keys && forall k :: k in rs ==> rs[k] == Some(mid[k])
  {
    mid := AllFields(rs).value.fields;
  }

  lemma SecondFields(mid: map<string, Json>, both: map<string, Option<Json>>, g: Selection, env: Env)
    requires g([]) != Some(JsonTree) && mid.Keys == both.Keys
    requires forall k :: k in both ==> OnePass(mid[k], Under(g, Key(k)), env) == both[k]
    ensures OnePass(Obj(mid), g, env) == AllFields(both)
  {
    var second := map k | k in mid :: OnePass(mid[k], Under(g, Key(k)), env);
    assert OnePass(Obj(mid), g, env) == AllFields(second);
    assert second == both;
  }

  /** What a list of rules selects. */
  ghost function SelectedBy(rules: seq<Rule>): Selection {
    (q: seq<Step>) => FirstMatch(rules, q)
  }

  ghost function FirstMatch(rules: seq<Rule>, q: seq<Step>): Option<Kind> {
    if rules == [] then None
    else
      var found := FirstMatch(rules[..|rules| - 1], q);
      if found.Some? then found else Selected(rules[|rules| - 1].path, rules[|rules| - 1].kind)(q)
  }

  ghost predicate Disjoint(rules: seq<Rule>) {
    forall i, j {:trigger rules[i], rules[j]} :: 0 <= i < j < |rules| ==>
      Apart(Selected(rules[i].path, rules[i].kind), Selected(rules[j].path, rules[j].kind))
  }

  lemma {:induction false} MatchedBySome(rules: seq<Rule>, q: seq<Step>) returns (i: nat)
    requires FirstMatch(rules, q).Some?
    ensures i < |rules| && Selected(rules[i].path, rules[i].kind)(q) == FirstMatch(rules, q)
  {
    var n := |rules| - 1;
    if FirstMatch(rules[..n], q).Some? {
      i := MatchedBySome(rules[..n], q);
    } else {
      i := n;
    }
  }

  lemma {:induction false} MatchedByNone(rules: seq<Rule>, q: seq<Step>, i: nat)
    requires i < |rules| && FirstMatch(rules, q) == None
    ensures Selected(rules[i].path, rules[i].kind)(q) == None
  {
    if i < |rules| - 1 {
      MatchedByNone(rules[..|rules| - 1], q, i);
    }
  }

  lemma ApartFromAll(rules: seq<Rule>, n: nat)
    requires Disjoint(rules) && n < |rules|
    ensures Apart(SelectedBy(rules[..n]), Selected(rules[n].path, rules[n].kind))
  {
    var f, g := SelectedBy(rules[..n]), Selected(rules[n].path, rules[n].kind);
    forall q ensures f(q) == None || g(q) == None {
      if f(q).Some? {
        var i := MatchedBySome(rules[..n], q);
        ApartAt(rules, i, n, q, []);
      }
    }
    forall q, r ensures f(q) == Some(JsonTree) ==> g(q + r) == None {
      if f(q).Some? {
        var i := MatchedBySome(rules[..n], q);
        ApartAt(rules, i, n, q, r);
      }
    }
    forall q, r ensures g(q) == Some(JsonTree) ==> f(q + r) == None {
      if f(q + r).Some? {
        var i := MatchedBySome(rules[..n], q + r);
        ApartAt(rules, i, n, q, r);
      }
    }
  }

  lemma ApartAt(rules: seq<Rule>, i: nat, n: nat, q: seq<Step>, r: seq<Step>)
    requires Disjoint(rules) && i < n < |rules|
    ensures var f, g := Selected(rules[..n][i].path, rules[..n][i].kind), Selected(rules[n].path, rules[n].kind);
            && (f(q) == None || g(q) == None)
            && (f(q) == Some(JsonTree) ==> g(q + r) == None) && (g(q) == Some(JsonTree) ==> f(q + r) == None)
  {
    assert rules[..n][i] == rules[i];
    assert Apart(Selected(rules[i].path, rules[i].kind), Selected(rules[n].path, rules[n].kind));
  }

  lemma NextPass(doc: Json, rules: seq<Rule>, n: nat, env: Env)
    requires Disjoint(rules) && n < |rules|
    ensures Then(OnePass(doc, SelectedBy(rules[..n]), env), Selected(rules[n].path, rules[n].kind), env)
            == OnePass(doc, SelectedBy(rules[..n + 1]), env)
  {
    var f, g := SelectedBy(rules[..n]), Selected(rules[n].path, rules[n].kind);
    ApartFromAll(rules, n);
    PassesCompose(doc, f, g, env);
    assert rules[..n + 1][..n] == rules[..n];
    PassSame(doc, Either(f, g), SelectedBy(rules[..n + 1]), env);
  }

  /** Following one more rule is one pass for the rules so far: every value that some rule selects is rewritten once. */
  lemma NextRule(doc: Json, rules: seq<Rule>, n: nat, env: Env, node: Json)
    requires Disjoint(rules) && n < |rules| && WellFormed(rules[n].path)
    requires OnePass(doc, SelectedBy(rules[..n]), env) == Some(node)
    ensures Walk(node, rules[n].path, rules[n].kind, env) == OnePass(doc, SelectedBy(rules[..n + 1]), env)
  {
    NextPass(doc, rules, n, env);
    WalkIsPass(node, rules[n].path, rules[n].kind, env);
  }

  /** A pass that fails for some of the rules fails for all. */
  lemma {:induction false} Fails(doc: Json, rules: seq<Rule>, n: nat, env: Env)
    requires Disjoint(rules) && n <= |rules| && OnePass(doc, SelectedBy(rules[..n]), env) == None
    ensures OnePass(doc, SelectedBy(rules), env) == None
    decreases |rules| - n
  {
    if n == |rules| {
      assert rules[..n] == rules;
    } else {
      NextPass(doc, rules, n, env);
      Fails(doc, rules, n + 1, env);
    }
  }

  // ---------------------------------------------------------------------------------------------
  // What stays as it is.
  // ---------------------------------------------------------------------------------------------

  /** The value at a path. */
  function ValueAt(node: Json, q: seq<Step>): Option<Json> {
    if q == [] then Some(node)
    else
      match (node, q[0])
      case (Arr(items), At(i)) => if i < |items| then ValueAt(items[i], q[1..]) else None
      case (Obj(fields), Key(k)) => if k in fields then ValueAt(fields[k], q[1..]) else None
      case _ => None
  }

  /** How the text at a path is to be rewritten: as selected, or because it stands in a value rewritten whole. */
  ghost function TextKind(sel: Selection, q: seq<Step>): Option<Kind>
    decreases |q|
  {
    if q == [] then (if sel([]) == Some(JsonTree) then None else sel([]))
    else if sel([]) == Some(JsonTree) then Some(Text)
    else TextKind(Under(sel, q[0]), q[1..])
  }

  /** A text handed to the transform once, or JSON text with every value in it handed to it once, or the text itself. */
  ghost predicate BecomesText(s: string, t: string, kind: Option<Kind>, env: Env) {
    match kind
    case Some(Text) => env.transform(s) == Some(t)
    case Some(JsonText) => BecomesJson(s, t, env)
    case _ => t == s
  }

  /** JSON text whose values were rewritten, and whose keys, shapes and other scalars were not; other text as it was. */
  ghost predicate BecomesJson(s: string, t: string, env: Env) {
    match env.parse(s)
    case None => t == s
    case Some(v) => exists w :: t == env.render(w) && Rewritten(v, w, env)
  }

  /** At every path of the value its texts were handed to the transform once, and all else is as it was. */
  ghost predicate Rewritten(v: Json, w: Json, env: Env) {
    forall q {:trigger ValueAt(v, q)} {:trigger ValueAt(w, q)} :: SameOrRewritten(ValueAt(v, q), ValueAt(w, q), env)
  }

  ghost predicate SameOrRewritten(v: Option<Json>, w: Option<Json>, env: Env) {
    match (v, w)
    case (None, None) => true
    case (Some(Other(a)), Some(Other(b))) => a == b
    case (Some(Str(s)), Some(Str(t))) => env.transform(s) == Some(t)
    case (Some(Arr(xs)), Some(Arr(ys))) => |xs| == |ys|
    case (Some(Obj(xs)), Some(Obj(ys))) => xs.Keys == ys.Keys
    case _ => false
  }

  /** Same shape at the top: the same scalar, as many elements, the same keys, and texts rewritten once if at all. */
  ghost predicate SameButText(v: Json, w: Json, kind: Option<Kind>, env: Env) {
    match v
    case Other(_) => w == v
    case Str(s) => w.Str? && BecomesText(s, w.s, kind, env)
    case Arr(items) => w.Arr? && |w.items| == |items|
    case Obj(fields) => w.Obj? && w.fields.Keys == fields.Keys
  }

  ghost predicate Keeps(v: Option<Json>, w: Option<Json>, kind: Option<Kind>, env: Env) {
    (v.None? <==> w.None?) && (v.Some? ==> SameButText(v.value, w.value, kind, env))
  }

  lemma TransformTextBecomes(s: string, env: Env)
    requires TransformText(s, env).Some?
    ensures BecomesJson(s, TransformText(s, env).value, env)
  {
    if env.parse(s).Some? {
      var v := env.parse(s).value;
      var w := TransformValue(v, env).value;
      forall q ensures SameOrRewritten(ValueAt(v, q), ValueAt(w, q), env) {
        TreeKeeps(v, env, q);
      }
      assert Rewritten(v, w, env);
    }
  }

  /** When what is written can be read back, the rewritten text is JSON again, with every value in it rewritten once. */
  lemma JsonTextRewritten(s: string, t: string, env: Env)
    requires (forall v {:trigger env.render(v)} :: env.parse(env.render(v)) == Some(v)) && BecomesJson(s, t, env)
    ensures env.parse(s) == None ==> t == s
    ensures env.parse(s).Some? ==> env.parse(t).Some? && Rewritten(env.parse(s).value, env.parse(t).value, env)
  {
  }

  // ---------------------------------------------------------------------------------------------
  // When rewriting succeeds.
  // ---------------------------------------------------------------------------------------------

  /** Every text in the value can be transformed. */
  ghost predicate AllTransform(v: Json, env: Env) {
    forall q, s {:trigger TextAt(v, q, s)} :: TextAt(v, q, s) ==> env.transform(s).Some?
  }

  ghost predicate TextAt(v: Json, q: seq<Step>, s: string) { ValueAt(v, q) == Some(Str(s)) }

  ghost predicate CanBecome(s: string, kind: Option<Kind>, env: Env) {
    match kind
    case Some(Text) => env.transform(s).Some?
    case Some(JsonText) => env.parse(s).Some? ==> AllTransform(env.parse(s).value, env)
    case _ => true
  }

  /** Every text that is selected can be rewritten. */
  ghost predicate CanPass(node: Json, sel: Selection, env: Env) {
    forall q, s {:trigger TextAt(node, q, s)} :: TextAt(node, q, s) ==> CanBecome(s, TextKind(sel, q), env)
  }

  lemma TextBelow(v: Json, step: Step, q: seq<Step>, s: string)
    ensures TextAt(v, [step] + q, s) <==>
            match (v, step)
            case (Arr(items), At(i)) => i < |items| && TextAt(items[i], q, s)
            case (Obj(fields), Key(k)) => k in fields && TextAt(fields[k], q, s)
            case _ => false
  {
    assert ([step] + q)[1..] == q && ([step] + q)[0] == step;
  }

  lemma {:induction false} TreeSucceeds(v: Json, env: Env)
    ensures TransformValue(v, env).Some? <==> AllTransform(v, env)
  {
    match v
    case Other(_) => NoTextIn(v);
    case Str(s) =>
      OnlyText(s);
      assert TextAt(v, [], s);
    case Arr(items) =>
      forall i | 0 <= i < |items| ensures TransformValue(items[i], env).Some? <==> AllTransform(items[i], env) {
        TreeSucceeds(items[i], env);
      }
      var rs := seq(|items|, j requires 0 <= j < |items| => TransformValue(items[j], env));
      assert TransformValue(v, env) == AllItems(rs);
      AllItemsThere(rs);
      assert forall i :: 0 <= i < |items| ==> rs[i] == TransformValue(items[i], env);
      ItemsTransform(items, env);
    case Obj(fields) =>
      forall k | k in fields ensures TransformValue(fields[k], env).Some? <==> AllTransform(fields[k], env) {
        TreeSucceeds(fields[k], env);
      }
      var rs := map j | j in fields :: TransformValue(fields[j], env);
      assert TransformValue(v, env) == AllFields(rs);
      AllFieldsThere(rs);
      assert forall k :: k in fields ==> k in rs && rs[k] == TransformValue(fields[k], env);
      FieldsTransform(fields, env);
  }

  lemma AllItemsThere(rs: seq<Option<Json>>)
    ensures AllItems(rs).Some? <==> forall i :: 0 <= i < |rs| ==> rs[i].Some?
  {
  }

  lemma AllFieldsThere(rs: map<string, Option<Json>>)
    ensures AllFields(rs).Some? <==> forall k :: k in rs ==> rs[k].Some?
  {
  }

  lemma NoTextIn(v: Json)
    requires v.Other?
    ensures forall q, s :: !TextAt(v, q, s)
  {
  }

  lemma OnlyText(s: string)
    ensures forall q, t :: TextAt(Str(s), q, t) <==> q == [] && t == s
  {
  }

  lemma ItemsTransform(items: seq<Json>, env: Env)
    ensures AllTransform(Arr(items), env) <==> forall i :: 0 <= i < |items| ==> AllTransform(items[i], env)
  {
    if AllTransform(Arr(items), env) {
      forall i: nat, q, s | i < |items| && TextAt(items[i], q, s) ensures env.transform(s).Some? {
        TextBelow(Arr(items), At(i), q, s);
      }
    }
    if forall i :: 0 <= i < |items| ==> AllTransform(items[i], env) {
      forall q, s | TextAt(Arr(items), q, s) ensures env.transform(s).Some? {
        assert q == [q[0]] + q[1..];
        TextBelow(Arr(items), q[0], q[1..], s);
      }
    }
  }

  lemma FieldsTransform(fields: map<string, Json>, env: Env)
    ensures AllTransform(Obj(fields), env) <==> forall k :: k in fields ==> AllTransform(fields[k], env)
  {
    if AllTransform(Obj(fields), env) {
      forall k, q, s | k in fields && TextAt(fields[k], q, s) ensures env.transform(s).Some? {
        TextBelow(Obj(fields), Key(k), q, s);
      }
    }
    if forall k :: k in fields ==> AllTransform(fields[k], env) {
      forall q, s | TextAt(Obj(fields), q, s) ensures env.transform(s).Some? {
        assert q == [q[0]] + q[1..];
        TextBelow(Obj(fields), q[0], q[1..], s);
      }
    }
  }

  /** A pass succeeds exactly if every selected text can be rewritten. */
  lemma {:induction false} PassSucceeds(node: Json, sel: Selection, env: Env)
    ensures OnePass(node, sel, env).Some? <==> CanPass(node, sel, env)
  {
    if sel([]) == Some(JsonTree) && (node.Arr? || node.Obj?) {
      TreeSucceeds(node, env);
      WholePass(node, sel, env);
    } else {
      match node
      case Other(_) => NoTextIn(node);
      case Str(s) =>
        OnlyText(s);
        if env.parse(s).Some? {
          TreeSucceeds(env.parse(s).value, env);
        }
        assert CanPass(node, sel, env) <==> TextAt(node, [], s) && CanBecome(s, TextKind(sel, []), env);
      case Arr(items) =>
        forall i | 0 <= i < |items|
          ensures OnePass(items[i], Under(sel, At(i)), env).Some? <==> CanPass(items[i], Under(sel, At(i)), env)
        {
          PassSucceeds(items[i], Under(sel, At(i)), env);
        }
        var rs := seq(|items|, j requires 0 <= j < |items| => OnePass(items[j], Under(sel, At(j)), env));
        assert OnePass(node, sel, env) == AllItems(rs);
        AllItemsThere(rs);
        assert forall i :: 0 <= i < |items| ==> rs[i] == OnePass(items[i], Under(sel, At(i)), env);
        ItemsPass(items, sel, env);
      case Obj(fields) =>
        forall k | k in fields
          ensures OnePass(fields[k], Under(sel, Key(k)), env).Some? <==> CanPass(fields[k], Under(sel, Key(k)), env)
        {
          PassSucceeds(fields[k], Under(sel, Key(k)), env);
        }
        var rs := map j | j in fields :: OnePass(fields[j], Under(sel, Key(j)), env);
        assert OnePass(node, sel, env) == AllFields(rs);
        AllFieldsThere(rs);
        assert forall k :: k in fields ==> k in rs && rs[k] == OnePass(fields[k], Under(sel, Key(k)), env);
        FieldsPass(fields, sel, env);
    }
  }

  lemma WholePass(node: Json, sel: Selection, env: Env)
    requires sel([]) == Some(JsonTree) && (node.Arr? || node.Obj?)
    ensures CanPass(node, sel, env) <==> AllTransform(node, env)
  {
    forall q, s | TextAt(node, q, s) ensures TextKind(sel, q) == Some(Text) {
    }
  }

  lemma ItemsPass(items: seq<Json>, sel: Selection, env: Env)
    requires sel([]) != Some(JsonTree)
    ensures CanPass(Arr(items), sel, env) <==> forall i :: 0 <= i < |items| ==> CanPass(items[i], Under(sel, At(i)), env)
  {
    if CanPass(Arr(items), sel, env) {
      forall i: nat, q, s | i < |items| && TextAt(items[i], q, s) ensures CanBecome(s, TextKind(Under(sel, At(i)), q), env) {
        TextBelow(Arr(items), At(i), q, s);
        KindBelow(sel, At(i), q);
      }
    }
    if forall i :: 0 <= i < |items| ==> CanPass(items[i], Under(sel, At(i)), env) {
      forall q, s | TextAt(Arr(items), q, s) ensures CanBecome(s, TextKind(sel, q), env) {
        assert q == [q[0]] + q[1..];
        TextBelow(Arr(items), q[0], q[1..], s);
        KindBelow(sel, q[0], q[1..]);
      }
    }
  }

  lemma FieldsPass(fields: map<string, Json>, sel: Selection, env: Env)
    requires sel([]) != Some(JsonTree)
    ensures CanPass(Obj(fields), sel, env) <==> forall k :: k in fields ==> CanPass(fields[k], Under(sel, Key(k)), env)
  {
    if CanPass(Obj(fields), sel, env) {
      forall k, q, s | k in fields && TextAt(fields[k], q, s) ensures CanBecome(s, TextKind(Under(sel, Key(k)), q), env) {
        TextBelow(Obj(fields), Key(k), q, s);
        KindBelow(sel, Key(k), q);
      }
    }
    if forall k :: k in fields ==> CanPass(fields[k], Under(sel, Key(k)), env) {
      forall q, s | TextAt(Obj(fields), q, s) ensures CanBecome(s, TextKind(sel, q), env) {
        assert q == [q[0]] + q[1..];
        TextBelow(Obj(fields), q[0], q[1..], s);
        KindBelow(sel, q[0], q[1..]);
      }
    }
  }

  lemma KindBelow(sel: Selection, step: Step, q: seq<Step>)
    requires sel([]) != Some(JsonTree)
    ensures TextKind(sel, [step] + q) == TextKind(Under(sel, step), q)
  {
    assert ([step] + q)[1..] == q && ([step] + q)[0] == step;
  }

  lemma {:induction false} TreeKeeps(v: Json, env: Env, q: seq<Step>)
    requires TransformValue(v, env).Some?
    ensures Keeps(ValueAt(v, q), ValueAt(TransformValue(v, env).value, q), Some(Text), env)
    ensures SameOrRewritten(ValueAt(v, q), ValueAt(TransformValue(v, env).value, q), env)
    decreases |q|
  {
    var w := TransformValue(v, env).value;
    if q != [] {
      match (v, q[0])
      case (Arr(items), At(i)) =>
        if i < |items| {
          var rs := seq(|items|, j requires 0 <= j < |items| => TransformValue(items[j], env));
          assert TransformValue(v, env) == AllItems(rs) && rs[i].Some?;
          TreeKeeps(items[i], env, q[1..]);
        }
      case (Obj(fields), Key(k)) =>
        if k in fields {
          var rs := map j | j in fields :: TransformValue(fields[j], env);
          assert TransformValue(v, env) == AllFields(rs) && k in rs && rs[k].Some?;
          TreeKeeps(fields[k], env, q[1..]);
        }
      case _ =>
    }
  }

  /** At every path of the document the value keeps its shape, and a text is rewritten once or left as it is. */
  lemma {:induction false} PassKeeps(node: Json, sel: Selection, env: Env, q: seq<Step>)
    requires OnePass(node, sel, env).Some?
    ensures Keeps(ValueAt(node, q), ValueAt(OnePass(node, sel, env).value, q), TextKind(sel, q), env)
    decreases |q|
  {
    if sel([]) == Some(JsonTree) && (node.Arr? || node.Obj?) {
      TreeKeeps(node, env, q);
    } else if q == [] {
      if node.Str? && sel([]) == Some(JsonText) {
        TransformTextBecomes(node.s, env);
      }
    } else {
      match (node, q[0])
      case (Arr(items), At(i)) =>
        if i < |items| {
          var rs := seq(|items|, j requires 0 <= j < |items| => OnePass(items[j], Under(sel, At(j)), env));
          assert OnePass(node, sel, env) == AllItems(rs) && rs[i].Some?;
          PassKeeps(items[i], Under(sel, At(i)), env, q[1..]);
        }
      case (Obj(fields), Key(k)) =>
        if k in fields {
          var rs := map j | j in fields :: OnePass(fields[j], Under(sel, Key(j)), env);
          assert OnePass(node, sel, env) == AllFields(rs) && k in rs && rs[k].Some?;
          PassKeeps(fields[k], Under(sel, Key(k)), env, q[1..]);
        }
      case _ =>
    }
  }

  // ---------------------------------------------------------------------------------------------
  // The rules.
  // ---------------------------------------------------------------------------------------------

  /** Two paths part at some segment, or one ends where the other goes on and does not rewrite a whole value. */
  predicate Parts(p: seq<Segment>, kind: Kind, p': seq<Segment>, kind': Kind) {
    if p == [] then p' != [] && kind != JsonTree
    else if p' == [] then kind' != JsonTree
    else if p[0].Deep? || p'[0].Deep? then false
    else p[0] != p'[0] || Parts(p[1..], kind, p'[1..], kind')
  }

  lemma {:induction false} NeverEmpty(p: seq<Segment>)
    requires p == [] || WellFormed(p)
    ensures Matches([], p) <==> p == []
  {
    if p != [] && p[0].Deep? {
      assert p[1..][0] == p[1];
    }
  }

  lemma {:induction false} PartsApart(p: seq<Segment>, kind: Kind, p': seq<Segment>, kind': Kind, q: seq<Step>, r: seq<Step>)
    requires (p == [] || WellFormed(p)) && (p' == [] || WellFormed(p')) && Parts(p, kind, p', kind') && Matches(q, p)
    ensures !Matches(q, p')
    ensures kind == JsonTree ==> !Matches(q + r, p')
  {
    NeverEmpty(p');
    if p != [] && p' != [] {
      assert (q + r)[0] == q[0] && (q + r)[1..] == q[1..] + r;
      if p[0] == p'[0] {
        Shorter(p);
        Shorter(p');
        PartsApart(p[1..], kind, p'[1..], kind', q[1..], r);
      }
    }
  }

  lemma Shorter(p: seq<Segment>)
    requires WellFormed(p)
    ensures p[1..] == [] || WellFormed(p[1..])
  {
    assert forall i :: 0 <= i < |p[1..]| ==> p[1..][i] == p[i + 1];
  }

  lemma {:induction false} PartsSymmetric(p: seq<Segment>, kind: Kind, p': seq<Segment>, kind': Kind)
    requires Parts(p, kind, p', kind')
    ensures Parts(p', kind', p, kind)
  {
    if p != [] && p' != [] && p[0] == p'[0] {
      PartsSymmetric(p[1..], kind, p'[1..], kind');
    }
  }

  lemma PartingRules(r: Rule, r': Rule)
    requires WellFormed(r.path) && WellFormed(r'.path) && Parts(r.path, r.kind, r'.path, r'.kind)
    ensures Apart(Selected(r.path, r.kind), Selected(r'.path, r'.kind))
  {
    var f, g := Selected(r.path, r.kind), Selected(r'.path, r'.kind);
    PartsSymmetric(r.path, r.kind, r'.path, r'.kind);
    forall q ensures f(q) == None || g(q) == None {
      if f(q).Some? {
        PartsApart(r.path, r.kind, r'.path, r'.kind, q, []);
      }
    }
    forall q, t ensures f(q) == Some(JsonTree) ==> g(q + t) == None {
      if f(q) == Some(JsonTree) {
        PartsApart(r.path, r.kind, r'.path, r'.kind, q, t);
      }
    }
    forall q, t ensures g(q) == Some(JsonTree) ==> f(q + t) == None {
      if g(q) == Some(JsonTree) {
        PartsApart(r'.path, r'.kind, r.path, r.kind, q, t);
      }
    }
  }

  /** The sixteen rules for requests. */
  function SanitizeRule(i: nat): Rule
    requires i < 16
  {
    match i
    case 0 => Rule([Named("system")], Text)
    case 1 => Rule([Named("messages"), AnyIndex, Named("content")], Text)
    case 2 => Rule([Named("messages"), AnyIndex, Named("content"), AnyIndex, Named("text")], Text)
    case 3 => Rule([Named("messages"), AnyIndex, Named("tool_calls"), AnyIndex, Named("function"), Named("arguments")], JsonText)
    case 4 => Rule([Named("messages"), AnyIndex, Named("content"), AnyIndex, Named("content")], Text)
    case 5 => Rule([Named("messages"), AnyIndex, Named("content"), AnyIndex, Named("content"), AnyIndex, Named("text")], Text)
    case 6 => Rule([Named("messages"), AnyIndex, Named("content"), AnyIndex, Named("input")], JsonTree)
    case 7 => Rule([Named("messages"), AnyIndex, Named("function_call"), Named("arguments")], JsonText)
    case 8 => Rule([Named("input"), AnyIndex, Named("content"), AnyIndex, Named("text")], Text)
    case 9 => Rule([Named("prompt")], Text)
    case 10 => Rule([Named("system"), AnyIndex, Named("text")], Text)
    case 11 => Rule([Named("input")], Text)
    case 12 => Rule([Named("input"), AnyIndex], Text)
    case 13 => Rule([Named("tools"), AnyIndex, Named("function"), Named("description")], Text)
    case 14 => Rule([Named("tools"), AnyIndex, Named("description")], Text)
    case _ => Rule([Named("tools"), AnyIndex, Named("function"), Named("parameters"), Deep, Named("description")], Text)
  }

  const SANITIZE_RULES: seq<Rule> := seq(16, i requires 0 <= i < 16 => SanitizeRule(i))

  /** The paths are alike up to segment k, where they differ or the first one ends. */
  predicate SplitAt(r: Rule, r': Rule, k: nat) {
    && k <= |r.path| && k < |r'.path| && (forall i :: 0 <= i < k ==> r.path[i] == r'.path[i] && !r.path[i].Deep?)
    && (if k == |r.path| then r.kind != JsonTree else r.path[k] != r'.path[k] && !r.path[k].Deep? && !r'.path[k].Deep?)
  }

  predicate Split(i: nat, j: nat, k: nat)
    requires i < 16 && j < 16
  {
    SplitAt(SanitizeRule(i), SanitizeRule(j), k)
  }

  lemma {:induction false} SplitParts(p: seq<Segment>, kind: Kind, p': seq<Segment>, kind': Kind, k: nat)
    requires SplitAt(Rule(p, kind), Rule(p', kind'), k)
    ensures Parts(p, kind, p', kind')
  {
    if k > 0 {
      SplitParts(p[1..], kind, p'[1..], kind', k - 1);
    }
  }

  lemma MessageRule1()
    ensures Split(1, 2, 3) && Split(1, 3, 2) && Split(1, 4, 3) && Split(1, 5, 3) && Split(1, 6, 3) && Split(1, 7, 2)
  {
  }

  lemma MessageRule2()
    ensures Split(2, 3, 2) && Split(2, 4, 4) && Split(2, 5, 4) && Split(2, 6, 4) && Split(2, 7, 2)
  {
  }

  lemma MessageRule3()
    ensures Split(3, 4, 2) && Split(3, 5, 2) && Split(3, 6, 2) && Split(3, 7, 2)
  {
  }

  lemma MessageRule4()
    ensures Split(4, 5, 5) && Split(4, 6, 4) && Split(4, 7, 2)
  {
  }

  lemma LastMessageRules()
    ensures Split(5, 6, 4) && Split(5, 7, 2) && Split(6, 7, 2)
  {
  }

  lemma OtherRules()
    ensures Split(0, 10, 1) && Split(11, 8, 1) && Split(12, 8, 2) && Split(11, 12, 1) && Split(13, 14, 2)
    ensures Split(13, 15, 3) && Split(14, 15, 2)
  {
  }

  /** The field of the document that each rule starts from. */
  function Head(i: nat): string {
    if i == 0 || i == 10 then "system" else if i < 8 then "messages" else if i == 9 then "prompt" else if i < 13 then "input" else "tools"
  }

  lemma HeadIs(i: nat)
    requires i < 16
    ensures SanitizeRule(i).path != [] && SanitizeRule(i).path[0] == Named(Head(i))
  {
  }

  /** Where two rules that start from the same field part. */
  function Divider(i: nat, j: nat): nat {
    if i == 0 then 1
    else if i == 1 then (if j == 3 || j == 7 then 2 else 3)
    else if i == 2 then (if j == 3 || j == 7 then 2 else 4)
    else if i == 3 || j == 7 then 2
    else if i == 4 && j == 5 then 5
    else if i == 4 || i == 5 then 4
    else if i == 8 then (if j == 11 then 1 else 2)
    else if i == 11 then 1
    else if i == 13 && j == 15 then 3
    else 2
  }

  lemma SameHead(i: nat, j: nat)
    requires i < j < 16 && Head(i) == Head(j)
    ensures Split(i, j, Divider(i, j)) || Split(j, i, Divider(i, j))
  {
    assert "system"[0] == 's' && "messages"[0] == 'm' && "input"[0] == 'i' && "prompt"[0] == 'p' && "tools"[0] == 't';
    MessageRule1();
    MessageRule2();
    MessageRule3();
    MessageRule4();
    LastMessageRules();
    OtherRules();
  }

  lemma RulesPart(i: nat, j: nat)
    requires i < j < 16
    ensures Parts(SanitizeRule(i).path, SanitizeRule(i).kind, SanitizeRule(j).path, SanitizeRule(j).kind)
  {
    HeadIs(i);
    HeadIs(j);
    var r, r', k := SanitizeRule(i), SanitizeRule(j), if Head(i) == Head(j) then Divider(i, j) else 0;
    if Head(i) == Head(j) {
      SameHead(i, j);
    }
    if SplitAt(r, r', k) {
      SplitParts(r.path, r.kind, r'.path, r'.kind, k);
    } else {
      SplitParts(r'.path, r'.kind, r.path, r.kind, k);
      PartsSymmetric(r'.path, r'.kind, r.path, r.kind);
    }
  }

  lemma SanitizeRulesWellFormed(i: nat)
    requires i < 16
    ensures WellFormed(SanitizeRule(i).path)
  {
  }

  /** No value of a request is selected by two rules. */
  lemma SanitizeRulesDisjoint()
    ensures forall i: nat {:trigger SANITIZE_RULES[i]} :: i < |SANITIZE_RULES| ==> WellFormed(SANITIZE_RULES[i].path)
    ensures Disjoint(SANITIZE_RULES)
  {
    forall i: nat | i < 16 ensures WellFormed(SANITIZE_RULES[i].path) {
      SanitizeRulesWellFormed(i);
    }
    forall i: nat, j: nat | i < j < 16
      ensures Apart(Selected(SANITIZE_RULES[i].path, SANITIZE_RULES[i].kind), Selected(SANITIZE_RULES[j].path, SANITIZE_RULES[j].kind))
    {
      RulesPart(i, j);
      SanitizeRulesWellFormed(i);
      SanitizeRulesWellFormed(j);
      PartingRules(SanitizeRule(i), SanitizeRule(j));
    }
  }

  /** What ** and a name select: values under that name, with the name nowhere further up below the **. */
  lemma {:induction false} DeepSelects(q: seq<Step>, name: string)
    ensures Matches(q, [Deep, Named(name)]) <==>
            q != [] && q[|q| - 1] == Key(name) && forall i :: 0 <= i < |q| - 1 ==> q[i] != Key(name)
  {
    var path := [Deep, Named(name)];
    assert path[1..] == [Named(name)] && [Named(name)][1..] == [];
    if q != [] {
      DeepSelects(q[1..], name);
      assert Matches(q, [Named(name)]) <==> q == [Key(name)];
      assert q == [q[0]] + q[1..];
      if q[0] != Key(name) {
        assert forall i :: 0 <= i < |q| - 1 ==> (if i == 0 then q[0] else q[1..][i - 1]) == q[i];
      }
    }
  }

  // ---------------------------------------------------------------------------------------------
  // Requests.
  // ---------------------------------------------------------------------------------------------

  /** What one of the rules selects, all of them select as that. */
  lemma Selects(i: nat, q: seq<Step>)
    requires i < 16 && Matches(q, SanitizeRule(i).path)
    ensures SelectedBy(SANITIZE_RULES)(q) == Some(SanitizeRule(i).kind)
  {
    assert SANITIZE_RULES[i] == SanitizeRule(i);
    if FirstMatch(SANITIZE_RULES, q).None? {
      MatchedByNone(SANITIZE_RULES, q, i);
    }
    var j := MatchedBySome(SANITIZE_RULES, q);
    if i < j {
      OnlyOne(i, j, q);
    } else if j < i {
      OnlyOne(j, i, q);
    }
  }

  lemma OnlyOne(i: nat, j: nat, q: seq<Step>)
    requires i < j < 16
    ensures !Matches(q, SanitizeRule(i).path) || !Matches(q, SanitizeRule(j).path)
  {
    SanitizeRulesDisjoint();
    var r, r' := SANITIZE_RULES[i], SANITIZE_RULES[j];
    OneAlone(r, r', q);
  }

  lemma OneAlone(r: Rule, r': Rule, q: seq<Step>)
    requires Apart(Selected(r.path, r.kind), Selected(r'.path, r'.kind))
    ensures !Matches(q, r.path) || !Matches(q, r'.path)
  {
    assert Selected(r.path, r.kind)(q) == None || Selected(r'.path, r'.kind)(q) == None;
  }

  ghost predicate StepFits(s: Step, g: Segment) { (g.Named? && s == Key(g.name)) || (g.AnyIndex? && s.At?) }

  /** Step by step, up to the last segments. */
  lemma {:induction false} MatchesBehind(q: seq<Step>, path: seq<Segment>, n: nat)
    requires n <= |q| && n <= |path| && forall k :: 0 <= k < n ==> StepFits(q[k], path[k])
    requires Matches(q[n..], path[n..])
    ensures Matches(q, path)
  {
    if n > 0 {
      assert q[1..][n - 1..] == q[n..] && path[1..][n - 1..] == path[n..];
      MatchesBehind(q[1..], path[1..], n - 1);
    }
  }

  /** A path that fits begins and ends as the rule's. */
  lemma {:induction false} MatchesEnds(q: seq<Step>, path: seq<Segment>)
    requires path != [] && !path[|path| - 1].Deep? && Matches(q, path)
    ensures q != [] && StepFits(q[|q| - 1], path[|path| - 1])
    ensures !path[0].Deep? ==> StepFits(q[0], path[0])
    ensures (forall k :: 0 <= k < |path| ==> !path[k].Deep?) ==> |q| == |path|
    decreases |q| + |path|
  {
    if path[0].Deep? {
      if Matches(q, path[1..]) {
        MatchesEnds(q, path[1..]);
      } else {
        MatchesEnds(q[1..], path);
      }
    } else if |path| > 1 {
      MatchesEnds(q[1..], path[1..]);
      assert q[1..][|q| - 2] == q[|q| - 1];
    }
  }

  /** Nothing but free text is selected: a role, a name, a model, a type or an identifier never is, and of the tools only
      descriptions. */
  lemma SkeletonIsLeft(q: seq<Step>)
    requires SelectedBy(SANITIZE_RULES)(q).Some?
    ensures |q| > 0 && q[0] in {Key("system"), Key("messages"), Key("prompt"), Key("input"), Key("tools")}
    ensures q[0] == Key("tools") ==> q[|q| - 1] == Key("description")
    ensures q[0] == Key("messages") ==> q[|q| - 1] in {Key("content"), Key("text"), Key("arguments"), Key("input")}
    ensures (q[0] == Key("input") && |q| > 2) || (q[0] == Key("system") && |q| > 1) ==> q[|q| - 1] == Key("text")
  {
    var i := MatchedBySome(SANITIZE_RULES, q);
    MatchesEnds(q, SanitizeRule(i).path);
  }

  /** The text of messages is selected in every form of them, and so is what goes into a tool. */
  lemma MessagesAreRewritten(i: nat, j: nat, l: nat)
    ensures var sel, m := SelectedBy(SANITIZE_RULES), [Key("messages"), At(i)];
            && sel(m + [Key("content")]) == Some(Text)
            && sel(m + [Key("content"), At(j), Key("text")]) == Some(Text)
            && sel(m + [Key("content"), At(j), Key("content")]) == Some(Text)
            && sel(m + [Key("content"), At(j), Key("content"), At(l), Key("text")]) == Some(Text)
            && sel(m + [Key("content"), At(j), Key("input")]) == Some(JsonTree)
            && sel(m + [Key("tool_calls"), At(j), Key("function"), Key("arguments")]) == Some(JsonText)
            && sel(m + [Key("function_call"), Key("arguments")]) == Some(JsonText)
  {
    var m := [Key("messages"), At(i)];
    Fits(1, m + [Key("content")]);
    Fits(2, m + [Key("content"), At(j), Key("text")]);
    Fits(3, m + [Key("tool_calls"), At(j), Key("function"), Key("arguments")]);
    Fits(4, m + [Key("content"), At(j), Key("content")]);
    Fits(5, m + [Key("content"), At(j), Key("content"), At(l), Key("text")]);
    Fits(6, m + [Key("content"), At(j), Key("input")]);
    Fits(7, m + [Key("function_call"), Key("arguments")]);
  }

  lemma Fits(i: nat, q: seq<Step>)
    requires i < 16 && |q| == |SanitizeRule(i).path| && forall k :: 0 <= k < |q| ==> StepFits(q[k], SanitizeRule(i).path[k])
    ensures SelectedBy(SANITIZE_RULES)(q) == Some(SanitizeRule(i).kind)
  {
    MatchesBehind(q, SanitizeRule(i).path, |q|);
    Selects(i, q);
  }

  /** Prompts, and the input in every form of it, are selected. */
  lemma PromptsAreRewritten(i: nat, j: nat)
    ensures var sel := SelectedBy(SANITIZE_RULES);
            && sel([Key("system")]) == Some(Text) && sel([Key("system"), At(i), Key("text")]) == Some(Text)
            && sel([Key("prompt")]) == Some(Text) && sel([Key("input")]) == Some(Text) && sel([Key("input"), At(i)]) == Some(Text)
            && sel([Key("input"), At(i), Key("content"), At(j), Key("text")]) == Some(Text)
  {
    Fits(0, [Key("system")]);
    Fits(8, [Key("input"), At(i), Key("content"), At(j), Key("text")]);
    Fits(9, [Key("prompt")]);
    Fits(10, [Key("system"), At(i), Key("text")]);
    Fits(11, [Key("input")]);
    Fits(12, [Key("input"), At(i)]);
  }

  /** So are the descriptions of tools, and those anywhere in the schema of their parameters, each but below another. */
  lemma DescriptionsAreRewritten(i: nat, t: seq<Step>)
    requires forall k :: 0 <= k < |t| ==> t[k] != Key("description")
    ensures var sel, tool := SelectedBy(SANITIZE_RULES), [Key("tools"), At(i)];
            && sel(tool + [Key("description")]) == Some(Text) && sel(tool + [Key("function"), Key("description")]) == Some(Text)
            && sel(tool + [Key("function"), Key("parameters")] + t + [Key("description")]) == Some(Text)
  {
    var tool := [Key("tools"), At(i)];
    Fits(13, tool + [Key("function"), Key("description")]);
    Fits(14, tool + [Key("description")]);
    var q, path := tool + [Key("function"), Key("parameters")] + t + [Key("description")], SanitizeRule(15).path;
    assert q[4..] == t + [Key("description")] && path[4..] == [Deep, Named("description")];
    DeepSelects(t + [Key("description")], "description");
    MatchesBehind(q, path, 4);
    Selects(15, q);
  }

  /** The document with some of its values rewritten: the one pass for the rules, and what it leaves alone. */
  ghost predicate IsSanitized(doc: Json, rules: seq<Rule>, env: Env, r: Option<Json>) {
    && r == OnePass(doc, SelectedBy(rules), env)
    && (r.Some? <==> CanPass(doc, SelectedBy(rules), env))
    && (r.Some? ==> forall q {:trigger ValueAt(doc, q)} :: Keeps(ValueAt(doc, q), ValueAt(r.value, q), TextKind(SelectedBy(rules), q), env))
  }

  method SanitizeDocument(doc: Json, env: Env) returns (r: Option<Json>)
    ensures IsSanitized(doc, SANITIZE_RULES, env, r)
  {
    SanitizeRulesDisjoint();
    r := Follow(doc, SANITIZE_RULES, env);
  }

  /** Follows the rules one after the other. */
  method Follow(doc: Json, rules: seq<Rule>, env: Env) returns (r: Option<Json>)
    requires Disjoint(rules) && forall i: nat :: i < |rules| ==> WellFormed(rules[i].path)
    ensures IsSanitized(doc, rules, env, r)
  {
    var node := doc;
    PassSucceeds(doc, SelectedBy(rules), env);
    PassNothing(doc, SelectedBy(rules[..0]), env);
    for i := 0 to |rules|
      invariant OnePass(doc, SelectedBy(rules[..i]), env) == Some(node)
    {
      NextRule(doc, rules, i, env, node);
      var next := Walk(node, rules[i].path, rules[i].kind, env);
      if next.None? {
        Fails(doc, rules, i + 1, env);
        return None;
      }
      node := next.value;
    }
    assert rules[..|rules|] == rules;
    forall q ensures Keeps(ValueAt(doc, q), ValueAt(node, q), TextKind(SelectedBy(rules), q), env) {
      PassKeeps(doc, SelectedBy(rules), env, q);
    }
    r := Some(node);
  }

  // ---------------------------------------------------------------------------------------------
  // The arguments of a call in an answer, put together.
  // ---------------------------------------------------------------------------------------------

  /** With the transform that restores a text; what cannot be rewritten stays. */
  function RestoreArgs(raw: string, env: Env): string {
    match TransformText(raw, env)
    case None => raw
    case Some(t) => t
  }

  /** Arguments that are JSON are restored text by text, their keys left alone, and are JSON again; or nothing is restored, if
      one text cannot be or they are no JSON. */
  lemma ArgumentsAreRestored(raw: string, env: Env)
    requires forall v {:trigger env.render(v)} :: env.parse(env.render(v)) == Some(v)
    ensures var r := RestoreArgs(raw, env);
            if env.parse(raw).Some? && AllTransform(env.parse(raw).value, env)
            then env.parse(r).Some? && Rewritten(env.parse(raw).value, env.parse(r).value, env)
            else r == raw
  {
    if env.parse(raw).Some? {
      TreeSucceeds(env.parse(raw).value, env);
    }
    var t := TransformText(raw, env);
    if t.Some? {
      TransformTextBecomes(raw, env);
      JsonTextRewritten(raw, t.value, env);
    }
  }

  /** Arguments that are no JSON are restored as a text only if there is nothing to restore in them. */
  lemma BrokenArgumentsStay(raw: string, env: Env)
    requires env.parse(raw) == None
    ensures Some(RestoreArgs(raw, env)) == env.transform(raw) <==> env.transform(raw) == Some(raw)
  {
  }
}
