/** Prompt construction: flattening the GICS taxonomy into indented lines,
    the two-message classification prompt, and which steps the peer prompt
    contains.  Template wording is treated as opaque text. */
module SystemPrompts {
  import opened Results
  import opened PyValues
  import Text

  datatype GicsError =
    | SectorsNotList  // "Sectors" is present but not a list (ValueError)
    | Malformed       // a node is not a dict, or its children are not a list of dicts

  /** Depth 0 is a sector, 1 an industry group, 2 an industry, 3 a sub-industry. */
  type Level = l: nat | l <= 3

  /** One output line before rendering: its depth and its name text. */
  datatype Line = Line(level: Level, name: string)

  function Label(level: Level): string {
    if level == 0 then "Sector: "
    else if level == 1 then "Industry Group: "
    else if level == 2 then "Industry: "
    else "Sub-Industry: "
  }

  function Render(line: Line): string {
    Label(line.level) + line.name
  }

  /** The name used when a node has no "name". */
  function UnknownName(level: Level): string {
    if level == 0 then "Unknown Sector"
    else if level == 1 then "Unknown Industry Group"
    else if level == 2 then "Unknown Industry"
    else "Unknown Sub-Industry"
  }

  /** The exact key under which a node at `level` lists its children. */
  function ChildKey(level: Level): string
    requires level < 3
  {
    if level == 0 then "Industry Groups" else if level == 1 then "Industries" else "Sub-Industries"
  }

  function NodeName(node: Object, level: Level, repr: Value -> string): string {
    if "name" in node then PyStr(node["name"], repr) else UnknownName(level)
  }

  /** Iterating `node.get(key, [])` in a for loop: a list yields its items; an
      empty string or dict yields nothing; a non-empty string or dict yields
      strings, which have no `.get`; anything else is not iterable. */
  function Children(node: Object, key: string): Result<seq<Value>, GicsError> {
    match GetOr(node, key, Arr([]))
    case Arr(items) => Ok(items)
    case Str(s) => if s == [] then Ok([]) else Err(Malformed)
    case Obj(m) => if m == map[] then Ok([]) else Err(Malformed)
    case _ => Err(Malformed)
  }

  /** Lines of a pre-order walk rooted at depth `base`: the first line is at
      `base`, every line is at `base` or deeper, and each line goes at most one
      level deeper than the line before it. */
  predicate PreOrder(lines: seq<Line>, base: Level) {
    && (lines != [] ==> lines[0].level == base)
    && (forall k :: 0 <= k < |lines| ==> base <= lines[k].level)
    && (forall k :: 0 < k < |lines| ==> lines[k].level <= lines[k - 1].level + 1)
  }

  /** How many lines sit at `level`. */
  function CountAt(lines: seq<Line>, level: Level): nat
    decreases |lines|
  {
    if lines == [] then 0 else (if lines[0].level == level then 1 else 0) + CountAt(lines[1..], level)
  }

  lemma {:induction false} CountAtConcat(a: seq<Line>, b: seq<Line>, level: Level)
    ensures CountAt(a + b, level) == CountAt(a, level) + CountAt(b, level)
    decreases |a|
  {
    if a != [] {
      assert (a + b)[0] == a[0];
      assert (a + b)[1..] == a[1..] + b;
      CountAtConcat(a[1..], b, level);
    } else {
      assert a + b == b;
    }
  }

  lemma {:induction false} CountAtDeeper(a: seq<Line>, level: Level)
    requires forall k :: 0 <= k < |a| ==> a[k].level > level
    ensures CountAt(a, level) == 0
    decreases |a|
  {
    if a != [] {
      CountAtDeeper(a[1..], level);
    }
  }

  /** A node's line followed by its children's walk one level deeper is a
      walk with one line at this level. */
  lemma NodeShape(here: Line, sub: seq<Line>, level: Level)
    requires here.level == level
    requires level == 3 ==> sub == []
    requires level < 3 ==> PreOrder(sub, level + 1)
    ensures PreOrder([here] + sub, level)
    ensures CountAt([here] + sub, level) == 1
  {
    var t := [here] + sub;
    forall k | 0 < k < |t|
      ensures level <= t[k].level && t[k].level <= t[k - 1].level + 1
    {
      assert t[k] == sub[k - 1];
      if k > 1 {
        assert t[k - 1] == sub[k - 2];
      }
    }
    CountAtDeeper(sub, level);
    CountAtConcat([here], sub, level);
  }

  /** A non-empty walk followed by another walk at the same depth is a walk. */
  lemma PreOrderAppend(a: seq<Line>, b: seq<Line>, level: Level)
    requires a != [] && PreOrder(a, level) && PreOrder(b, level)
    ensures PreOrder(a + b, level)
    ensures CountAt(a + b, level) == CountAt(a, level) + CountAt(b, level)
  {
    var t := a + b;
    forall k | 0 <= k < |t|
      ensures level <= t[k].level
    {
      if k >= |a| {
        assert t[k] == b[k - |a|];
      }
    }
    forall k | 0 < k < |t|
      ensures t[k].level <= t[k - 1].level + 1
    {
      if k < |a| {
        assert t[k] == a[k] && t[k - 1] == a[k - 1];
      } else if k == |a| {
        assert t[k] == b[0] && t[k - 1] == a[|a| - 1];
      } else {
        assert t[k] == b[k - |a|] && t[k - 1] == b[k - 1 - |a|];
      }
    }
    CountAtConcat(a, b, level);
  }

  /** The lines one node contributes at depth `level`: its own line, then,
      above the sub-industry level, the walk of its children. */
  function NodeLines(node: Object, level: Level, repr: Value -> string): (r: Result<seq<Line>, GicsError>)
    ensures r.Ok? ==> r.value != [] && r.value[0] == Line(level, NodeName(node, level, repr))
    ensures r.Ok? ==> PreOrder(r.value, level) && CountAt(r.value, level) == 1
    ensures r.Err? ==> r.error == Malformed
    decreases 3 - level, 0
  {
    var here := Line(level, NodeName(node, level, repr));
    if level == 3 then
      NodeShape(here, [], level);
      Ok([here])
    else
      match Children(node, ChildKey(level))
      case Err(e) => Err(e)
      case Ok(kids) =>
        match FlattenNodes(kids, level + 1, repr)
        case Err(e) => Err(e)
        case Ok(sub) =>
          NodeShape(here, sub, level);
          Ok([here] + sub)
  }

  /** The lines the nested loops of `flatten_gics_schema` append for the
      nodes `items` at depth `level`: each node's own line, then the lines of
      its children, then the following siblings. */
  function FlattenNodes(items: seq<Value>, level: Level, repr: Value -> string): (r: Result<seq<Line>, GicsError>)
    ensures r.Ok? ==> PreOrder(r.value, level)
    ensures r.Ok? ==> CountAt(r.value, level) == |items|
    ensures r.Ok? && items != [] ==> items[0].Obj? && r.value != [] && r.value[0] == Line(level, NodeName(items[0].fields, level, repr))
    ensures r.Err? ==> r.error == Malformed
    ensures (exists k :: 0 <= k < |items| && !items[k].Obj?) ==> r.Err?
    decreases 3 - level, |items|
  {
    if items == [] then Ok([])
    else if !items[0].Obj? then Err(Malformed)
    else
      match NodeLines(items[0].fields, level, repr)
      case Err(e) => Err(e)
      case Ok(mine) =>
        match FlattenNodes(items[1..], level, repr)
        case Err(e) => Err(e)
        case Ok(rest) =>
          assert forall k :: 1 <= k < |items| ==> items[k] == items[1..][k - 1];
          PreOrderAppend(mine, rest, level);
          Ok(mine + rest)
  }

  /** The walk of two sibling lists is the walk of the first followed by
      the walk of the second, and fails when either does. */
  lemma {:induction false} FlattenNodesAppend(a: seq<Value>, b: seq<Value>, level: Level, repr: Value -> string)
    ensures FlattenNodes(a + b, level, repr).Ok? <==> FlattenNodes(a, level, repr).Ok? && FlattenNodes(b, level, repr).Ok?
    ensures FlattenNodes(a + b, level, repr).Ok? ==>
      FlattenNodes(a + b, level, repr).value == FlattenNodes(a, level, repr).value + FlattenNodes(b, level, repr).value
    decreases |a|
  {
    if a == [] {
      assert a + b == b;
    } else {
      var ab := a + b;
      assert ab[0] == a[0] && ab[1..] == a[1..] + b;
      FlattenNodesAppend(a[1..], b, level, repr);
      if a[0].Obj? && NodeLines(a[0].fields, level, repr).Ok? && FlattenNodes(ab, level, repr).Ok? {
        var mine := NodeLines(a[0].fields, level, repr).value;
        var tail := FlattenNodes(a[1..], level, repr).value;
        var y := FlattenNodes(b, level, repr).value;
        Text.AppendAssociates(mine, tail, y);
      }
    }
  }

  /** One node contributes its own line, then, above the sub-industry
      level, the walk of its children one level deeper. */
  lemma FlattenNodesSingle(node: Object, level: Level, repr: Value -> string)
    ensures level == 3 ==> FlattenNodes([Obj(node)], level, repr) == Ok([Line(3, NodeName(node, 3, repr))])
    ensures level < 3 ==> var kids := Children(node, ChildKey(level));
      && (FlattenNodes([Obj(node)], level, repr).Ok? <==> kids.Ok? && FlattenNodes(kids.value, level + 1, repr).Ok?)
      && (FlattenNodes([Obj(node)], level, repr).Ok? ==>
            FlattenNodes([Obj(node)], level, repr).value
              == [Line(level, NodeName(node, level, repr))] + FlattenNodes(kids.value, level + 1, repr).value)
  {
    assert [Obj(node)][0] == Obj(node) && [Obj(node)][1..] == [];
    if NodeLines(node, level, repr).Ok? {
      var mine := NodeLines(node, level, repr).value;
      assert mine + [] == mine;
    }
  }

  /** The names of the lines at depth `level`, in order. */
  function NamesAt(lines: seq<Line>, level: Level): seq<string>
    decreases |lines|
  {
    if lines == [] then []
    else (if lines[0].level == level then [lines[0].name] else []) + NamesAt(lines[1..], level)
  }

  lemma {:induction false} NamesAtConcat(a: seq<Line>, b: seq<Line>, level: Level)
    ensures NamesAt(a + b, level) == NamesAt(a, level) + NamesAt(b, level)
    decreases |a|
  {
    if a != [] {
      assert (a + b)[0] == a[0];
      assert (a + b)[1..] == a[1..] + b;
      NamesAtConcat(a[1..], b, level);
    } else {
      assert a + b == b;
    }
  }

  lemma {:induction false} NamesAtDeeper(a: seq<Line>, level: Level)
    requires forall k :: 0 <= k < |a| ==> a[k].level > level
    ensures NamesAt(a, level) == []
    decreases |a|
  {
    if a != [] {
      NamesAtDeeper(a[1..], level);
    }
  }

  /** The name an item gets at `level`: its "name" rendered with `str`, or
      the level's "Unknown ..." text. */
  function ItemName(item: Value, level: Level, repr: Value -> string): string {
    if item.Obj? then NodeName(item.fields, level, repr) else UnknownName(level)
  }

  /** A node's walk has exactly one line at its own depth: the node's. */
  lemma NodeLinesNames(node: Object, level: Level, repr: Value -> string)
    requires NodeLines(node, level, repr).Ok?
    ensures NamesAt(NodeLines(node, level, repr).value, level) == [NodeName(node, level, repr)]
  {
    var mine := NodeLines(node, level, repr).value;
    var here := Line(level, NodeName(node, level, repr));
    var sub := mine[1..];
    assert mine == [here] + sub;
    if level < 3 {
      assert sub == FlattenNodes(Children(node, ChildKey(level)).value, level + 1, repr).value;
      assert forall k :: 0 <= k < |sub| ==> sub[k].level > level;
    }
    NamesAtDeeper(sub, level);
    NamesAtConcat([here], sub, level);
  }

  /** The walk of a non-empty list is the first node's walk followed by the
      walk of the rest. */
  lemma FlattenNodesCons(items: seq<Value>, level: Level, repr: Value -> string)
    requires items != [] && FlattenNodes(items, level, repr).Ok?
    ensures items[0].Obj? && NodeLines(items[0].fields, level, repr).Ok?
    ensures FlattenNodes(items[1..], level, repr).Ok?
    ensures FlattenNodes(items, level, repr).value
      == NodeLines(items[0].fields, level, repr).value + FlattenNodes(items[1..], level, repr).value
  {
  }

  /** The item names of a list are the first item's name followed by the
      item names of the rest. */
  lemma ItemNamesCons(items: seq<Value>, level: Level, repr: Value -> string)
    requires items != []
    ensures seq(|items|, k requires 0 <= k < |items| => ItemName(items[k], level, repr))
      == [ItemName(items[0], level, repr)] + seq(|items| - 1, k requires 0 <= k < |items| - 1 => ItemName(items[1..][k], level, repr))
  {
  }

  /** The lines at the walk's own depth are exactly one per item, in order,
      each carrying the item's name or the level's "Unknown ..." name. */
  lemma {:induction false} FlattenNodesNames(items: seq<Value>, level: Level, repr: Value -> string)
    requires FlattenNodes(items, level, repr).Ok?
    ensures NamesAt(FlattenNodes(items, level, repr).value, level) == seq(|items|, k requires 0 <= k < |items| => ItemName(items[k], level, repr))
    decreases |items|
  {
    if items != [] {
      FlattenNodesCons(items, level, repr);
      var mine := NodeLines(items[0].fields, level, repr).value;
      var rest := FlattenNodes(items[1..], level, repr).value;
      NodeLinesNames(items[0].fields, level, repr);
      FlattenNodesNames(items[1..], level, repr);
      NamesAtConcat(mine, rest, level);
      ItemNamesCons(items, level, repr);
    }
  }

  /** `flatten_gics_schema(schema)`: one line per sector, industry group,
      industry and sub-industry in pre-order, joined by newlines. */
  function FlattenGicsSchema(schema: Value, repr: Value -> string): (r: Result<string, GicsError>)
    ensures schema.Obj? && "Sectors" !in schema.fields ==> r == Ok("")
    ensures schema.Obj? && "Sectors" in schema.fields && !schema.fields["Sectors"].Arr? ==> r == Err(SectorsNotList)
    ensures r == Err(SectorsNotList) ==> schema.Obj? && "Sectors" in schema.fields && !schema.fields["Sectors"].Arr?
    ensures r.Ok? ==> exists lines :: PreOrder(lines, 0) && r.value == Text.Join("\n", RenderAll(lines))
    ensures r.Ok? <==> schema.Obj? && (var sectors := GetOr(schema.fields, "Sectors", Arr([]));
      sectors.Arr? && FlattenNodes(sectors.items, 0, repr).Ok?)
    ensures r.Ok? ==> var sectors := GetOr(schema.fields, "Sectors", Arr([]));
      r.value == Text.Join("\n", RenderAll(FlattenNodes(sectors.items, 0, repr).value))
  {
    if !schema.Obj? then Err(Malformed)
    else
      match GetOr(schema.fields, "Sectors", Arr([]))
      case Arr(sectors) =>
        (match FlattenNodes(sectors, 0, repr)
         case Err(e) => Err(e)
         case Ok(lines) => Ok(Text.Join("\n", RenderAll(lines))))
      case _ => Err(SectorsNotList)
  }

  function RenderAll(lines: seq<Line>): (texts: seq<string>)
    ensures |texts| == |lines|
  {
    seq(|lines|, k requires 0 <= k < |lines| => Render(lines[k]))
  }

  /** Keys other than "name" and the level's child key do not affect what a
      node contributes. */
  lemma OtherKeysIgnored(node: Object, key: string, v: Value, rest: seq<Value>, level: Level, repr: Value -> string)
    requires key != "name" && (level < 3 ==> key != ChildKey(level))
    ensures FlattenNodes([Obj(node[key := v])] + rest, level, repr) == FlattenNodes([Obj(node)] + rest, level, repr)
  {
    var changed := node[key := v];
    assert ([Obj(changed)] + rest)[0] == Obj(changed) && ([Obj(changed)] + rest)[1..] == rest;
    assert ([Obj(node)] + rest)[0] == Obj(node) && ([Obj(node)] + rest)[1..] == rest;
    assert NodeName(changed, level, repr) == NodeName(node, level, repr);
    if level < 3 {
      assert GetOr(changed, ChildKey(level), Arr([])) == GetOr(node, ChildKey(level), Arr([]));
      assert Children(changed, ChildKey(level)) == Children(node, ChildKey(level));
    }
  }

  /** A chat message for the classifier. */
  datatype Message = Message(role: string, content: string)

  const ClassifierOpening: string :=
    "You are an expert at structured data extraction.\n"
    + "You will be given unstructured data about a company.\n"
    + "Your task is to classify the company strictly according to the following GICS schema:\n\n"

  const ClassifierClosing: string :=
    "\n\nOnly use this schema. Do not make up new fields or guess outside the provided schema.\n"
    + "If classification is ambiguous, choose the most closely matching official GICS category."

  /** `build_company_classification_prompt(content, gics_schema)` */
  function BuildCompanyClassificationPrompt(content: seq<string>, schema: Value, repr: Value -> string): (r: Result<seq<Message>, GicsError>)
    ensures r.Err? <==> FlattenGicsSchema(schema, repr).Err?
    ensures r.Ok? ==> |r.value| == 2 && r.value[0].role == "system" && r.value[1].role == "user"
    ensures r.Ok? ==> r.value[0].content == ClassifierOpening + FlattenGicsSchema(schema, repr).value + ClassifierClosing
    ensures r.Ok? ==> r.value[1].content == Text.Join("\n\n", content)
  {
    match FlattenGicsSchema(schema, repr)
    case Err(e) => Err(e)
    case Ok(flat) =>
      Ok([Message("system", ClassifierOpening + flat + ClassifierClosing), Message("user", Text.Join("\n\n", content))])
  }

  /** The classifier's system text holds the flattened schema verbatim
      between the fixed opening and closing, and its user text holds every
      content chunk, in order, each followed by a blank line but the last. */
  lemma ClassificationPromptEmbeds(content: seq<string>, schema: Value, repr: Value -> string)
    requires BuildCompanyClassificationPrompt(content, schema, repr).Ok?
    ensures var system := BuildCompanyClassificationPrompt(content, schema, repr).value[0].content;
      var flat := FlattenGicsSchema(schema, repr).value;
      && |system| == |ClassifierOpening| + |flat| + |ClassifierClosing|
      && system[..|ClassifierOpening|] == ClassifierOpening
      && system[|ClassifierOpening|..|ClassifierOpening| + |flat|] == flat
      && system[|ClassifierOpening| + |flat|..] == ClassifierClosing
    ensures var user := BuildCompanyClassificationPrompt(content, schema, repr).value[1].content;
      forall k :: 0 <= k < |content| ==>
        && Text.JoinOffset("\n\n", content, k) + |content[k]| <= |user|
        && user[Text.JoinOffset("\n\n", content, k)..Text.JoinOffset("\n\n", content, k) + |content[k]|] == content[k]
    ensures forall k :: 0 <= k < |content| - 1 ==>
      Text.JoinOffset("\n\n", content, k + 1) == Text.JoinOffset("\n\n", content, k) + |content[k]| + 2
  {
    var flat := FlattenGicsSchema(schema, repr).value;
    SystemTextEmbeds(flat);
    Text.JoinEmbedsParts("\n\n", content);
  }

  /** The classifier's system text splits back into the fixed opening, the
      flattened schema and the fixed closing. */
  lemma SystemTextEmbeds(flat: string)
    ensures var system := ClassifierOpening + flat + ClassifierClosing;
      && |system| == |ClassifierOpening| + |flat| + |ClassifierClosing|
      && system[..|ClassifierOpening|] == ClassifierOpening
      && system[|ClassifierOpening|..|ClassifierOpening| + |flat|] == flat
      && system[|ClassifierOpening| + |flat|..] == ClassifierClosing
  {
    var system := ClassifierOpening + flat + ClassifierClosing;
    assert system[|ClassifierOpening|..|ClassifierOpening| + |flat|] == flat;
  }

  /** The sections of the peer prompt; their wording is opaque. */
  datatype PeerStep =
    | CountryPeers(count: int)  // "Step 1"
    | RegionPeers(count: int)   // "Step 2"
    | FallbackStrategy          // "Step 3"

  function StepNumber(step: PeerStep): nat {
    match step
    case CountryPeers(_) => 1
    case RegionPeers(_) => 2
    case FallbackStrategy => 3
  }

  /** Which sections `build_peer_prompt` assembles, in order. */
  function PeerSteps(numCountryPeers: int, numRegionPeers: int): (steps: seq<PeerStep>)
    ensures steps != [] && steps[|steps| - 1] == FallbackStrategy
    ensures numCountryPeers > 0 ==> CountryPeers(numCountryPeers) in steps
    ensures numRegionPeers > 0 ==> RegionPeers(numRegionPeers) in steps
    ensures forall k :: 0 <= k < |steps| && steps[k].CountryPeers? ==> numCountryPeers > 0
    ensures forall k :: 0 <= k < |steps| && steps[k].RegionPeers? ==> numRegionPeers > 0
    ensures forall k :: 0 <= k < |steps| && steps[k].CountryPeers? ==> steps[k].count == numCountryPeers
    ensures forall k :: 0 <= k < |steps| && steps[k].RegionPeers? ==> steps[k].count == numRegionPeers
    ensures forall i, j :: 0 <= i < j < |steps| ==> StepNumber(steps[i]) < StepNumber(steps[j])
  {
    (if numCountryPeers > 0 then [CountryPeers(numCountryPeers)] else [])
    + (if numRegionPeers > 0 then [RegionPeers(numRegionPeers)] else [])
    + [FallbackStrategy]
  }

  /** The text of each selected section, in order. */
  function StepTexts(numCountryPeers: int, numRegionPeers: int, template: PeerStep -> string): (texts: seq<string>)
    ensures |texts| == |PeerSteps(numCountryPeers, numRegionPeers)|
    ensures forall k :: 0 <= k < |texts| ==> texts[k] == template(PeerSteps(numCountryPeers, numRegionPeers)[k])
  {
    var steps := PeerSteps(numCountryPeers, numRegionPeers);
    seq(|steps|, k requires 0 <= k < |steps| => template(steps[k]))
  }

  /** A text that begins and ends with something other than whitespace. */
  predicate SolidEnds(t: string) {
    t != [] && !Text.IsSpace(t[0]) && !Text.IsSpace(t[|t| - 1])
  }

  /** Joining texts whose ends are not whitespace gives such a text. */
  lemma JoinSolidEnds(sep: string, parts: seq<string>)
    requires parts != [] && SolidEnds(parts[0]) && SolidEnds(parts[|parts| - 1])
    ensures SolidEnds(Text.Join(sep, parts))
  {
    var whole := Text.Join(sep, parts);
    var last := |parts| - 1;
    Text.JoinPart(sep, parts, 0);
    Text.JoinPart(sep, parts, last);
    assert whole[0] == whole[0..|parts[0]|][0];
    var o := Text.JoinOffset(sep, parts, last);
    assert whole[|whole| - 1] == whole[o..o + |parts[last]|][|parts[last]| - 1];
  }

  /** `build_peer_prompt`: the selected sections, each rendered by `template`,
      joined by newlines and stripped of surrounding whitespace. */
  function BuildPeerPrompt(numCountryPeers: int, numRegionPeers: int, template: PeerStep -> string): (prompt: string)
    ensures Text.StripOf(prompt, Text.Join("\n", StepTexts(numCountryPeers, numRegionPeers, template)), Text.IsSpace)
    ensures (forall k :: 0 <= k < |StepTexts(numCountryPeers, numRegionPeers, template)| ==>
        SolidEnds(StepTexts(numCountryPeers, numRegionPeers, template)[k])) ==>
      prompt == Text.Join("\n", StepTexts(numCountryPeers, numRegionPeers, template))
  {
    var texts := StepTexts(numCountryPeers, numRegionPeers, template);
    SolidTextsUnstripped(texts);
    Text.Trim(Text.Join("\n", texts), Text.IsSpace)
  }

  /** Sections without whitespace at their ends lose nothing to the strip. */
  lemma SolidTextsUnstripped(texts: seq<string>)
    requires texts != []
    ensures (forall k :: 0 <= k < |texts| ==> SolidEnds(texts[k])) ==>
      Text.Trim(Text.Join("\n", texts), Text.IsSpace) == Text.Join("\n", texts)
  {
    if forall k :: 0 <= k < |texts| ==> SolidEnds(texts[k]) {
      JoinSolidEnds("\n", texts);
      Text.TrimUnchanged(Text.Join("\n", texts), Text.IsSpace);
    }
  }
}
