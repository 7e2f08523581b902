/** `hoist_schema`: named schemas are moved to a table of components and replaced by references. */
module SchemaHoisting {
  import opened Wrappers
  import Text

  /** A JSON schema, as far as hoisting looks at it: the other keys of an object are kept as one text. */
  datatype Schema =
    | Plain(json: string)                    // not an object
    | Ref(name: string)                      // {"$ref": "#/components/schemas/name"}
    | Node(title: Option<string>, properties: Properties, items: Option<Schema>, additional: Option<Schema>, others: string)

  datatype Properties = Absent | NotAnObject(json: string) | Members(list: List)

  datatype List = Nil | Cons(key: string, schema: Schema, rest: List)

  type Table = map<string, Schema>

  // ---- Component names -----------------------------------------------------------------------

  predicate IsAlnum(c: char) { '0' <= c <= '9' || 'a' <= c <= 'z' || 'A' <= c <= 'Z' }

  predicate Edge(c: char) { c == '_' || c == '.' }

  /** Characters OpenAPI allows in a component key. */
  predicate KeyChar(c: char) { IsAlnum(c) || c == '.' || c == '_' || c == '-' }

  /** `::` becomes a dot, anything else that is not a key character an underscore. */
  function Mapped(title: string): string
    decreases |title|
  {
    if title == "" then ""
    else if title[0] == ':' && |title| > 1 && title[1] == ':' then "." + Mapped(title[2..])
    else [if KeyChar(title[0]) then title[0] else '_'] + Mapped(title[1..])
  }

  function StripFront(s: string): string {
    if s != "" && Edge(s[0]) then StripFront(s[1..]) else s
  }

  function StripBack(s: string): string {
    if s != "" && Edge(s[|s| - 1]) then StripBack(s[..|s| - 1]) else s
  }

  function ComponentName(title: string): string {
    var s := StripBack(StripFront(Mapped(title)));
    if s == "" then "Schema" else s
  }

  method MapLoop(title: string) returns (out: string)
    ensures out == Mapped(title)
  {
    hide Mapped;
    out := "";
    var i := 0;
    assert title[0..] == title;
    while i < |title|
      invariant i <= |title| && out + Mapped(title[i..]) == Mapped(title)
    {
      var c := title[i];
      ghost var was, rest := out, Mapped(title[i..]);
      MappedStep(title, i);
      if c == ':' && i + 1 < |title| && title[i + 1] == ':' {
        out := out + ".";
        i := i + 2;
      } else if KeyChar(c) {
        out := out + [c];
        i := i + 1;
      } else {
        out := out + "_";
        i := i + 1;
      }
      assert out + Mapped(title[i..]) == was + (out[|was|..] + Mapped(title[i..]));
    }
    EmptyMapped(title, i);
  }

  lemma EmptyMapped(title: string, i: nat)
    requires i == |title|
    ensures Mapped(title[i..]) == ""
  {
  }

  lemma MappedStep(title: string, i: nat)
    requires i < |title|
    ensures Mapped(title[i..]) ==
            if title[i] == ':' && i + 1 < |title| && title[i + 1] == ':' then "." + Mapped(title[i + 2..])
            else [if KeyChar(title[i]) then title[i] else '_'] + Mapped(title[i + 1..])
  {
    var rest := title[i..];
    assert rest[1..] == title[i + 1..];
    if |rest| > 1 { assert rest[2..] == title[i + 2..]; }
  }

  method ComponentNameLoop(title: string) returns (out: string)
    ensures out == ComponentName(title)
  {
    out := MapLoop(title);
    while out != "" && Edge(out[0])
      invariant StripFront(out) == StripFront(Mapped(title))
      decreases |out|
    {
      out := out[1..];
    }
    while out != "" && Edge(out[|out| - 1])
      invariant StripBack(out) == StripBack(StripFront(Mapped(title)))
      decreases |out|
    {
      out := out[..|out| - 1];
    }
    if out == "" { out := "Schema"; }
  }

  /** A component name is a non-empty OpenAPI key that neither starts nor ends with `_` or `.`. */
  lemma ComponentNameIsKey(title: string)
    ensures var n := ComponentName(title);
            n != "" && (forall c <- n :: KeyChar(c)) && !Edge(n[0]) && !Edge(n[|n| - 1])
  {
    MappedKeys(title);
    StripFrontKeys(Mapped(title));
    StripBackKeys(StripFront(Mapped(title)));
  }

  lemma {:induction false} MappedKeys(title: string)
    ensures forall c <- Mapped(title) :: KeyChar(c)
    decreases |title|
  {
    if title != "" {
      if title[0] == ':' && |title| > 1 && title[1] == ':' { MappedKeys(title[2..]); } else { MappedKeys(title[1..]); }
    }
  }

  lemma {:induction false} StripFrontKeys(s: string)
    requires forall c <- s :: KeyChar(c)
    ensures var r := StripFront(s); (forall c <- r :: KeyChar(c)) && (r != "" ==> !Edge(r[0]))
    decreases |s|
  {
    if s != "" && Edge(s[0]) { StripFrontKeys(s[1..]); }
  }

  lemma {:induction false} StripBackKeys(s: string)
    requires (forall c <- s :: KeyChar(c)) && (s != "" ==> !Edge(s[0]))
    ensures var r := StripBack(s);
            (forall c <- r :: KeyChar(c)) && (r != "" ==> !Edge(r[0]) && !Edge(r[|r| - 1]))
    decreases |s|
  {
    if s != "" && Edge(s[|s| - 1]) { StripBackKeys(s[..|s| - 1]); }
  }

  // ---- What names become, character by character --------------------------------------------------

  /** Only letters, digits, `-`, `.` and `_`, the ends neither `_` nor `.`. */
  predicate CleanName(s: string) {
    && s != "" && s[0] != '_' && s[0] != '.' && s[|s| - 1] != '_' && s[|s| - 1] != '.'
    && forall c <- s :: InKey(c)
  }

  predicate InKey(c: char) { c in Text.LOWER || c in Text.UPPER || c in Text.DIGITS || c in "-._" }

  lemma KeyCharsAre(c: char)
    ensures KeyChar(c) <==> InKey(c)
  {
    Text.LowerLetters(c);
    Text.UpperLetters(c);
    Text.DecimalDigits(c);
  }

  /** Key characters stay as they are. */
  lemma {:induction false} KeyCharsStay(s: string, rest: string)
    requires forall c <- s :: KeyChar(c)
    ensures Mapped(s + rest) == s + Mapped(rest)
    decreases |s|
  {
    if s == "" {
      assert s + rest == rest;
    } else {
      KeyCharsStay(s[1..], rest);
      assert s + rest == [s[0]] + (s[1..] + rest) && s[0] in s;
      assert s + Mapped(rest) == [s[0]] + (s[1..] + Mapped(rest));
    }
  }

  lemma {:induction false} FrontStripped(e: string, s: string)
    requires (forall c <- e :: c == '_' || c == '.') && (s != "" ==> s[0] != '_' && s[0] != '.')
    ensures StripFront(e + s) == s
    decreases |e|
  {
    if e == "" {
      assert e + s == s;
    } else {
      assert forall c <- e[1..] :: c in e;
      FrontStripped(e[1..], s);
      assert (e + s)[1..] == e[1..] + s && e[0] in e;
    }
  }

  lemma {:induction false} BackStripped(s: string, e: string)
    requires (forall c <- e :: c == '_' || c == '.') && (s != "" ==> s[|s| - 1] != '_' && s[|s| - 1] != '.')
    ensures StripBack(s + e) == s
    decreases |e|
  {
    if e == "" {
      assert s + e == s;
    } else {
      var n := |e| - 1;
      assert forall c <- e[..n] :: c in e;
      BackStripped(s, e[..n]);
      assert (s + e)[..|s + e| - 1] == s + e[..n] && (s + e)[|s + e| - 1] == e[n] && e[n] in e;
    }
  }

  /** Dots and underscores around a name are taken off, and nothing else. */
  lemma StrippedName(title: string, front: string, s: string, back: string)
    requires Mapped(title) == front + (s + back) && (forall c <- front + back :: c == '_' || c == '.')
    requires s != "" && s[0] != '_' && s[0] != '.' && s[|s| - 1] != '_' && s[|s| - 1] != '.'
    ensures ComponentName(title) == s
  {
    hide Mapped;
    assert forall c <- front :: c in front + back;
    assert forall c <- back :: c in front + back;
    FrontStripped(front, s + back);
    BackStripped(s, back);
  }

  /** A title of key characters with clean ends is its own name, and stays it inside dots and underscores. */
  lemma CleanNameStays(front: string, s: string, back: string)
    requires CleanName(s) && forall c <- front + back :: c == '_' || c == '.'
    ensures ComponentName(front + (s + back)) == s
  {
    hide Mapped, ComponentName;
    var title := front + (s + back);
    assert forall c <- title :: c in front + back || c in s;
    forall c <- title ensures KeyChar(c) { KeyCharsAre(c); }
    KeyCharsStay(title, "");
    NothingMapped();
    assert title + "" == title;
    StrippedName(title, front, s, back);
  }

  lemma NothingMapped()
    ensures Mapped("") == ""
  {
  }

  lemma CleanIsKeys(s: string)
    requires CleanName(s)
    ensures forall c <- s :: KeyChar(c)
  {
    forall c <- s ensures KeyChar(c) { KeyCharsAre(c); }
  }

  /** Whatever `middle` is mapped to stays between two clean names. */
  lemma BetweenNames(a: string, middle: string, mapped: string, b: string)
    requires CleanName(a) && CleanName(b) && Mapped(middle + b) == mapped + Mapped(b)
    ensures ComponentName(a + middle + b) == a + mapped + b
  {
    hide Mapped, ComponentName;
    CleanIsKeys(a);
    CleanIsKeys(b);
    KeyCharsStay(a, middle + b);
    KeyCharsStay(b, "");
    NothingMapped();
    var s := a + mapped + b;
    assert a + middle + b == a + (middle + b) && b + "" == b;
    assert Mapped(a + middle + b) == "" + (s + "");
    hide CleanName;
    StrippedName(a + middle + b, "", s, "");
  }

  /** Two colons become a dot. */
  lemma ColonsBecomeDot(a: string, b: string)
    requires CleanName(a) && CleanName(b)
    ensures ComponentName(a + "::" + b) == a + "." + b
  {
    hide ComponentName;
    assert ("::" + b)[2..] == b;
    BetweenNames(a, "::", ".", b);
  }

  /** Any other character becomes an underscore. */
  lemma OtherBecomesUnderscore(a: string, c: char, b: string)
    requires CleanName(a) && CleanName(b) && !InKey(c)
    ensures ComponentName(a + [c] + b) == a + "_" + b
  {
    hide ComponentName;
    KeyCharsAre(c);
    CleanIsKeys(b);
    assert ([c] + b)[1..] == b && ([c] + b)[1] == b[0];
    BetweenNames(a, [c], "_", b);
  }

  // ---- Hoisting, on values --------------------------------------------------------------------

  /** A schema that is moved to the table. */
  predicate Named(v: Schema) {
    v.Node? && v.title.Some? && !v.properties.Absent?
  }

  function NameOf(v: Schema): string
    requires Named(v)
  {
    ComponentName(v.title.value)
  }

  /** The schema with its named parts replaced, and the grown table. */
  function Hoist(v: Schema, t: Table): (Schema, Table)
    decreases v
  {
    if !v.Node? then (v, t)
    else
      var (ps, t1) := HoistProperties(v.properties, t);
      var (items, t2) := HoistOption(v.items, t1);
      var (additional, t3) := HoistOption(v.additional, t2);
      var node := v.(properties := ps, items := items, additional := additional);
      if !Named(node) then (node, t3)
      else
        var name := NameOf(node);
        (Ref(name), if name in t3 then t3 else t3[name := node])
  }

  function HoistProperties(p: Properties, t: Table): (Properties, Table)
    decreases p
  {
    if p.Members? then var (list, t1) := HoistList(p.list, t); (Members(list), t1) else (p, t)
  }

  function HoistList(l: List, t: Table): (List, Table)
    decreases l
  {
    match l
    case Nil => (Nil, t)
    case Cons(key, s, rest) =>
      var (s1, t1) := Hoist(s, t);
      var (rest1, t2) := HoistList(rest, t1);
      (Cons(key, s1, rest1), t2)
  }

  function HoistOption(o: Option<Schema>, t: Table): (Option<Schema>, Table)
    decreases o
  {
    match o
    case None => (None, t)
    case Some(s) => var (s1, t1) := Hoist(s, t); (Some(s1), t1)
  }

  // ---- What a reference stands for ---------------------------------------------------------------

  /** `x`, read against the table, is the tree `v`. */
  predicate Denotes(t: Table, x: Schema, v: Schema)
    decreases v, 1
  {
    if x.Ref? then x.name in t && t[x.name].Node? && NodeDenotes(t, t[x.name], v)
    else if x.Node? then NodeDenotes(t, x, v)
    else x == v
  }

  predicate NodeDenotes(t: Table, x: Schema, v: Schema)
    requires x.Node?
    decreases v, 0
  {
    v.Node? && x.title == v.title && x.others == v.others &&
    PropertiesDenote(t, x.properties, v.properties) &&
    OptionDenotes(t, x.items, v.items) && OptionDenotes(t, x.additional, v.additional)
  }

  predicate PropertiesDenote(t: Table, x: Properties, v: Properties)
    decreases v
  {
    if x.Members? then v.Members? && ListDenotes(t, x.list, v.list) else x == v
  }

  predicate ListDenotes(t: Table, x: List, v: List)
    decreases v
  {
    match v
    case Nil => x.Nil?
    case Cons(key, s, rest) => x.Cons? && x.key == key && Denotes(t, x.schema, s) && ListDenotes(t, x.rest, rest)
  }

  predicate OptionDenotes(t: Table, x: Option<Schema>, v: Option<Schema>)
    decreases v
  {
    match v
    case None => x.None?
    case Some(s) => x.Some? && Denotes(t, x.value, s)
  }

  // ---- The named schemas of a tree ----------------------------------------------------------------

  /** No references: a schema as it is rendered, before hoisting. */
  predicate NoRefs(v: Schema)
    decreases v
  {
    !v.Ref? &&
    (v.Node? ==>
       (v.properties.Members? ==> NoRefsList(v.properties.list)) &&
       (v.items.Some? ==> NoRefs(v.items.value)) && (v.additional.Some? ==> NoRefs(v.additional.value)))
  }

  predicate NoRefsList(l: List)
    decreases l
  {
    l.Cons? ==> NoRefs(l.schema) && NoRefsList(l.rest)
  }

  /** The named schemas anywhere in a tree. */
  ghost function NamedIn(v: Schema): set<Schema>
    decreases v
  {
    if !v.Node? then {}
    else
      (if Named(v) then {v} else {}) +
      (if v.properties.Members? then NamedInList(v.properties.list) else {}) +
      (if v.items.Some? then NamedIn(v.items.value) else {}) +
      (if v.additional.Some? then NamedIn(v.additional.value) else {})
  }

  ghost function NamedInList(l: List): set<Schema>
    decreases l
  {
    if l.Nil? then {} else NamedIn(l.schema) + NamedInList(l.rest)
  }

  /** Equal component names only for equal schemas. */
  ghost predicate Consistent(all: set<Schema>) {
    (forall w <- all :: Named(w)) &&
    forall a, b | a in all && b in all && NameOf(a) == NameOf(b) :: a == b
  }

  /** Every component denotes the schema among `all` that has its name. */
  ghost predicate Describes(t: Table, all: set<Schema>) {
    forall n <- t ::
      t[n].Node? && Named(t[n]) && NameOf(t[n]) == n && exists w :: w in all && Named(w) && NameOf(w) == n && Denotes(t, t[n], w)
  }

  predicate Grows(t: Table, t1: Table) {
    forall n <- t :: n in t1 && t1[n] == t[n]
  }

  // ---- Facts about Denotes ---------------------------------------------------------------------------

  lemma {:induction false} DenotesGrows(t: Table, t1: Table, x: Schema, v: Schema)
    requires Grows(t, t1) && Denotes(t, x, v)
    ensures Denotes(t1, x, v)
    decreases v, 1
  {
    if x.Ref? { NodeDenotesGrows(t, t1, t[x.name], v); } else if x.Node? { NodeDenotesGrows(t, t1, x, v); }
  }

  lemma {:induction false} NodeDenotesGrows(t: Table, t1: Table, x: Schema, v: Schema)
    requires Grows(t, t1) && x.Node? && NodeDenotes(t, x, v)
    ensures NodeDenotes(t1, x, v)
    decreases v, 0
  {
    if x.properties.Members? { ListDenotesGrows(t, t1, x.properties.list, v.properties.list); }
    if x.items.Some? { DenotesGrows(t, t1, x.items.value, v.items.value); }
    if x.additional.Some? { DenotesGrows(t, t1, x.additional.value, v.additional.value); }
  }

  lemma {:induction false} ListDenotesGrows(t: Table, t1: Table, x: List, v: List)
    requires Grows(t, t1) && ListDenotes(t, x, v)
    ensures ListDenotes(t1, x, v)
    decreases v
  {
    if v.Cons? {
      DenotesGrows(t, t1, x.schema, v.schema);
      ListDenotesGrows(t, t1, x.rest, v.rest);
    }
  }

  /** A schema read against a table is one tree at most. */
  lemma {:induction false} DenotesOne(t: Table, x: Schema, v: Schema, w: Schema)
    requires Denotes(t, x, v) && Denotes(t, x, w)
    ensures v == w
    decreases v, 1
  {
    if x.Ref? { NodeDenotesOne(t, t[x.name], v, w); } else if x.Node? { NodeDenotesOne(t, x, v, w); }
  }

  lemma {:induction false} NodeDenotesOne(t: Table, x: Schema, v: Schema, w: Schema)
    requires x.Node? && NodeDenotes(t, x, v) && NodeDenotes(t, x, w)
    ensures v == w
    decreases v, 0
  {
    if x.properties.Members? { ListDenotesOne(t, x.properties.list, v.properties.list, w.properties.list); }
    if x.items.Some? { DenotesOne(t, x.items.value, v.items.value, w.items.value); }
    if x.additional.Some? { DenotesOne(t, x.additional.value, v.additional.value, w.additional.value); }
  }

  lemma {:induction false} ListDenotesOne(t: Table, x: List, v: List, w: List)
    requires ListDenotes(t, x, v) && ListDenotes(t, x, w)
    ensures v == w
    decreases v
  {
    if v.Cons? {
      DenotesOne(t, x.schema, v.schema, w.schema);
      ListDenotesOne(t, x.rest, v.rest, w.rest);
    }
  }

  // ---- Hoisting preserves meaning ------------------------------------------------------------------------

  lemma DescribesGrows(t: Table, t1: Table, all: set<Schema>, name: string, w: Schema)
    requires Describes(t, all) && name !in t && w in all && Named(w) && NameOf(w) == name
    requires t1.Keys == t.Keys + {name} && Grows(t, t1)
    requires t1[name].Node? && Named(t1[name]) && NameOf(t1[name]) == name && NodeDenotes(t, t1[name], w)
    ensures Describes(t1, all)
  {
    forall n <- t1
      ensures t1[n].Node? && Named(t1[n]) && NameOf(t1[n]) == n &&
              exists u :: u in all && Named(u) && NameOf(u) == n && Denotes(t1, t1[n], u)
    {
      if n == name {
        NodeDenotesGrows(t, t1, t1[name], w);
        assert Denotes(t1, t1[n], w);
      } else {
        var u :| u in all && Named(u) && NameOf(u) == n && Denotes(t, t[n], u);
        DenotesGrows(t, t1, t[n], u);
      }
    }
  }

  lemma {:induction false} HoistDenotes(v: Schema, t: Table, all: set<Schema>)
    requires NoRefs(v) && NamedIn(v) <= all && Consistent(all) && Describes(t, all)
    ensures var (x, t1) := Hoist(v, t); Grows(t, t1) && Describes(t1, all) && Denotes(t1, x, v)
    decreases v
  {
    if v.Node? {
      HoistNodeDenotes(v, t, all);
      var (ps, t1) := HoistProperties(v.properties, t);
      var (items, t2) := HoistOption(v.items, t1);
      var (additional, t3) := HoistOption(v.additional, t2);
      var node := v.(properties := ps, items := items, additional := additional);
      if Named(node) {
        assert v in all;
        PlaceNamed(node, v, t3, all);
      }
    }
  }

  /** The children of a node, hoisted from left to right. */
  lemma {:induction false} HoistNodeDenotes(v: Schema, t: Table, all: set<Schema>)
    requires v.Node? && NoRefs(v) && NamedIn(v) <= all && Consistent(all) && Describes(t, all)
    ensures var (ps, t1) := HoistProperties(v.properties, t);
            var (items, t2) := HoistOption(v.items, t1);
            var (additional, t3) := HoistOption(v.additional, t2);
            var node := v.(properties := ps, items := items, additional := additional);
            Grows(t, t3) && Describes(t3, all) && NodeDenotes(t3, node, v) && (Named(node) <==> Named(v))
    decreases v, 0
  {
    hide Describes, Consistent, Hoist;
    var (ps, t1) := HoistProperties(v.properties, t);
    var (items, t2) := HoistOption(v.items, t1);
    var (additional, t3) := HoistOption(v.additional, t2);
    if v.properties.Members? { HoistListDenotes(v.properties.list, t, all); }
    if v.items.Some? { HoistDenotes(v.items.value, t1, all); }
    if v.additional.Some? { HoistDenotes(v.additional.value, t2, all); }
    if v.properties.Members? { ListDenotesGrows(t1, t3, ps.list, v.properties.list); }
    if v.items.Some? { DenotesGrows(t2, t3, items.value, v.items.value); }
  }

  lemma {:induction false} HoistListDenotes(l: List, t: Table, all: set<Schema>)
    requires NoRefsList(l) && NamedInList(l) <= all && Consistent(all) && Describes(t, all)
    ensures var (x, t1) := HoistList(l, t); Grows(t, t1) && Describes(t1, all) && ListDenotes(t1, x, l)
    decreases l
  {
    hide Describes, Consistent, Hoist;
    if l.Cons? {
      HoistDenotes(l.schema, t, all);
      var (s1, t1) := Hoist(l.schema, t);
      HoistListDenotes(l.rest, t1, all);
      var (rest1, t2) := HoistList(l.rest, t1);
      DenotesGrows(t1, t2, s1, l.schema);
    }
  }

  /** Putting a hoisted node into the table, or finding an equal one there. */
  lemma PlaceNamed(node: Schema, v: Schema, t: Table, all: set<Schema>)
    requires node.Node? && Named(node) && v in all && Named(v) && Consistent(all) && Describes(t, all)
    requires NodeDenotes(t, node, v)
    ensures var name := NameOf(node);
            var t1 := if name in t then t else t[name := node];
            Grows(t, t1) && Describes(t1, all) && Denotes(t1, Ref(name), v)
  {
    var name := NameOf(node);
    assert NameOf(v) == name;
    if name in t {
      var w :| w in all && Named(w) && NameOf(w) == name && Denotes(t, t[name], w);
      assert w == v;
    } else {
      var t1 := t[name := node];
      DescribesGrows(t, t1, all, name, v);
      NodeDenotesGrows(t, t1, node, v);
    }
  }

  // ---- Which schemas move, field by field ------------------------------------------------------------------

  /** What stands in the place of a schema: a reference where it has a title and properties. */
  function Replaced(v: Schema): Schema
    decreases v, 1
  {
    match v
    case Plain(_) => v
    case Ref(_) => v
    case Node(title, properties, items, additional, others) =>
      if title.Some? && (properties.Members? || properties.NotAnObject?) then Ref(ComponentName(title.value))
      else ReplacedInside(v)
  }

  /** The schema with its parts replaced. */
  function ReplacedInside(v: Schema): Schema
    requires v.Node?
    decreases v, 0
  {
    Node(v.title,
         match v.properties { case Absent => Absent case NotAnObject(json) => NotAnObject(json) case Members(list) => Members(ReplacedList(list)) },
         match v.items { case None => None case Some(s) => Some(Replaced(s)) },
         match v.additional { case None => None case Some(s) => Some(Replaced(s)) },
         v.others)
  }

  function ReplacedList(l: List): List
    decreases l
  {
    match l
    case Nil => Nil
    case Cons(key, s, rest) => Cons(key, Replaced(s), ReplacedList(rest))
  }

  /** No node anywhere in a schema has both a title and properties. */
  predicate Untitled(x: Schema)
    decreases x, 1
  {
    x.Node? ==> (x.title.None? || x.properties.Absent?) && UntitledInside(x)
  }

  predicate UntitledInside(x: Schema)
    requires x.Node?
    decreases x, 0
  {
    (x.properties.Members? ==> UntitledList(x.properties.list)) &&
    (x.items.Some? ==> Untitled(x.items.value)) && (x.additional.Some? ==> Untitled(x.additional.value))
  }

  predicate UntitledList(l: List)
    decreases l
  {
    l.Cons? ==> Untitled(l.schema) && UntitledList(l.rest)
  }

  lemma {:induction false} ReplacedIsUntitled(v: Schema)
    ensures Untitled(Replaced(v)) && (v.Node? ==> UntitledInside(ReplacedInside(v)))
    decreases v
  {
    if v.Node? {
      if v.properties.Members? { ReplacedListIsUntitled(v.properties.list); }
      if v.items.Some? { ReplacedIsUntitled(v.items.value); }
      if v.additional.Some? { ReplacedIsUntitled(v.additional.value); }
    }
  }

  lemma {:induction false} ReplacedListIsUntitled(l: List)
    ensures UntitledList(ReplacedList(l))
    decreases l
  {
    if l.Cons? {
      ReplacedIsUntitled(l.schema);
      ReplacedListIsUntitled(l.rest);
    }
  }

  /** The subtrees with a title and properties, inner ones before the ones they are part of. */
  function Moved(v: Schema): seq<Schema>
    decreases v
  {
    if !v.Node? then []
    else
      (if v.properties.Members? then MovedList(v.properties.list) else []) +
      (if v.items.Some? then Moved(v.items.value) else []) +
      (if v.additional.Some? then Moved(v.additional.value) else []) +
      (if v.title.Some? && (v.properties.Members? || v.properties.NotAnObject?) then [v] else [])
  }

  function MovedList(l: List): seq<Schema>
    decreases l
  {
    if l.Nil? then [] else Moved(l.schema) + MovedList(l.rest)
  }

  /** `l[i]` is the first of these schemas whose title has the component name `n`. */
  predicate IsFirst(l: seq<Schema>, i: nat, n: string) {
    i < |l| && l[i].Node? && HasName(l[i], n) && forall j | 0 <= j < i :: !HasName(l[j], n)
  }

  predicate HasName(v: Schema, n: string) {
    v.Node? && v.title.Some? && ComponentName(v.title.value) == n
  }

  /** `t1` keeps `t` and adds, for every name of these schemas that is not in it, the first one of that
      name with its parts replaced. */
  ghost predicate Placed(t: Table, t1: Table, l: seq<Schema>) {
    Grows(t, t1) &&
    (forall n <- t1 :: n in t || exists i: nat :: IsFirst(l, i, n) && t1[n] == ReplacedInside(l[i])) &&
    (forall w <- l :: w.Node? && w.title.Some? && ComponentName(w.title.value) in t1)
  }

  lemma PlacedThen(t: Table, t1: Table, t2: Table, l: seq<Schema>, more: seq<Schema>)
    requires Placed(t, t1, l) && Placed(t1, t2, more)
    ensures Placed(t, t2, l + more)
  {
    hide ReplacedInside, ComponentName;
    var all := l + more;
    forall n | n in t2 && n !in t ensures exists i: nat :: IsFirst(all, i, n) && t2[n] == ReplacedInside(all[i]) {
      if n in t1 {
        var i: nat :| IsFirst(l, i, n) && t1[n] == ReplacedInside(l[i]);
        assert all[i] == l[i] && IsFirst(all, i, n);
      } else {
        var i: nat :| IsFirst(more, i, n) && t2[n] == ReplacedInside(more[i]);
        assert all[|l| + i] == more[i];
        forall j | 0 <= j < |l| + i ensures !HasName(all[j], n) {
          if j < |l| { assert l[j] in l; } else { assert all[j] == more[j - |l|]; }
        }
        assert IsFirst(all, |l| + i, n);
      }
    }
  }

  lemma NothingPlaced(t: Table)
    ensures Placed(t, t, [])
  {
  }

  lemma OnePlaced(t: Table, v: Schema)
    requires v.Node? && v.title.Some?
    ensures var n := ComponentName(v.title.value); Placed(t, if n in t then t else t[n := ReplacedInside(v)], [v])
  {
    assert IsFirst([v], 0, ComponentName(v.title.value));
  }

  /** Hoisting puts a reference for every schema with a title and properties, whatever the table holds,
      and places exactly these. */
  lemma {:induction false} HoistReplaces(v: Schema, t: Table)
    ensures var (x, t1) := Hoist(v, t); x == Replaced(v) && Placed(t, t1, Moved(v))
    decreases v
  {
    hide Placed;
    if !v.Node? {
      NothingPlaced(t);
    } else {
      HoistInsideReplaces(v, t);
      var (ps, t1) := HoistProperties(v.properties, t);
      var (items, t2) := HoistOption(v.items, t1);
      var (additional, t3) := HoistOption(v.additional, t2);
      var node := v.(properties := ps, items := items, additional := additional);
      assert node == ReplacedInside(v);
      if v.title.Some? && (v.properties.Members? || v.properties.NotAnObject?) {
        OnePlaced(t3, v);
        PlacedThen(t, t3, Hoist(v, t).1, MovedInside(v), [v]);
      } else {
        assert Moved(v) == MovedInside(v);
      }
    }
  }

  function MovedInside(v: Schema): seq<Schema>
    requires v.Node?
  {
    (if v.properties.Members? then MovedList(v.properties.list) else []) +
    (if v.items.Some? then Moved(v.items.value) else []) +
    (if v.additional.Some? then Moved(v.additional.value) else [])
  }

  lemma {:induction false} HoistInsideReplaces(v: Schema, t: Table)
    requires v.Node?
    ensures var (ps, t1) := HoistProperties(v.properties, t);
            var (items, t2) := HoistOption(v.items, t1);
            var (additional, t3) := HoistOption(v.additional, t2);
            v.(properties := ps, items := items, additional := additional) == ReplacedInside(v) &&
            Placed(t, t3, MovedInside(v))
    decreases v, 0
  {
    hide Placed, Hoist, Moved;
    var (ps, t1) := HoistProperties(v.properties, t);
    var (items, t2) := HoistOption(v.items, t1);
    var (additional, t3) := HoistOption(v.additional, t2);
    var l1 := if v.properties.Members? then MovedList(v.properties.list) else [];
    var l2 := if v.items.Some? then Moved(v.items.value) else [];
    var l3 := if v.additional.Some? then Moved(v.additional.value) else [];
    if v.properties.Members? { HoistListReplaces(v.properties.list, t); } else { NothingPlaced(t); }
    if v.items.Some? { HoistReplaces(v.items.value, t1); } else { NothingPlaced(t1); }
    if v.additional.Some? { HoistReplaces(v.additional.value, t2); } else { NothingPlaced(t2); }
    PlacedThen(t, t1, t2, l1, l2);
    PlacedThen(t, t2, t3, l1 + l2, l3);
  }

  lemma {:induction false} HoistListReplaces(l: List, t: Table)
    ensures var (x, t1) := HoistList(l, t); x == ReplacedList(l) && Placed(t, t1, MovedList(l))
    decreases l
  {
    hide Placed, Hoist, Moved, Replaced;
    if l.Nil? {
      NothingPlaced(t);
    } else {
      HoistReplaces(l.schema, t);
      var (s1, t1) := Hoist(l.schema, t);
      HoistListReplaces(l.rest, t1);
      PlacedThen(t, t1, HoistList(l.rest, t1).1, Moved(l.schema), MovedList(l.rest));
    }
  }

  // ---- The whole document ------------------------------------------------------------------------------

  /** The schema slots of all operations, in the order in which `hoist_operation` visits them. */
  function HoistAll(vs: seq<Schema>, t: Table): (seq<Schema>, Table)
    decreases |vs|
  {
    if vs == [] then ([], t)
    else
      var (x, t1) := Hoist(vs[0], t);
      var (xs, t2) := HoistAll(vs[1..], t1);
      ([x] + xs, t2)
  }

  function MovedAll(vs: seq<Schema>): seq<Schema> {
    if vs == [] then [] else Moved(vs[0]) + MovedAll(vs[1..])
  }

  /** What a document ends up with, slot by slot and component by component: no node with a title and
      properties stays in a slot or inside a component, and the components are these very nodes. */
  lemma {:induction false} HoistAllReplaces(vs: seq<Schema>, t: Table)
    ensures var (xs, t1) := HoistAll(vs, t);
            && |xs| == |vs| && (forall i | 0 <= i < |vs| :: xs[i] == Replaced(vs[i]) && Untitled(xs[i]))
            && Placed(t, t1, MovedAll(vs))
    decreases |vs|
  {
    hide Placed, Hoist, Moved, Replaced, Untitled;
    if vs == [] {
      NothingPlaced(t);
    } else {
      HoistReplaces(vs[0], t);
      ReplacedIsUntitled(vs[0]);
      var (x, t1) := Hoist(vs[0], t);
      HoistAllReplaces(vs[1..], t1);
      var (xs, t2) := HoistAll(vs[1..], t1);
      PlacedThen(t, t1, t2, Moved(vs[0]), MovedAll(vs[1..]));
      forall i | 0 <= i < |vs| ensures ([x] + xs)[i] == Replaced(vs[i]) && Untitled(([x] + xs)[i]) {
        if i > 0 { assert ([x] + xs)[i] == xs[i - 1] && vs[1..][i - 1] == vs[i]; }
      }
    }
  }

  ghost function NamedInAll(vs: seq<Schema>): set<Schema> {
    if vs == [] then {} else NamedIn(vs[0]) + NamedInAll(vs[1..])
  }

  predicate AllDenote(t: Table, xs: seq<Schema>, vs: seq<Schema>) {
    |xs| == |vs| && forall i | 0 <= i < |vs| :: Denotes(t, xs[i], vs[i])
  }

  /** The components `components.schemas` of a document, grown in place over its operations. */
  class Components {
    var schemas: Table

    constructor ()
      ensures schemas == map[]
    {
      schemas := map[];
    }

    /** `hoist_schema`. */
    method HoistSchema(v: Schema) returns (x: Schema)
      modifies this
      ensures (x, schemas) == Hoist(v, old(schemas))
      decreases v
    {
      if !v.Node? { return v; }
      var ps := v.properties;
      if v.properties.Members? {
        var list := HoistMembers(v.properties.list);
        ps := Members(list);
      }
      var items, additional := v.items, v.additional;
      if v.items.Some? {
        var s := HoistSchema(v.items.value);
        items := Some(s);
      }
      if v.additional.Some? {
        var s := HoistSchema(v.additional.value);
        additional := Some(s);
      }
      var node := v.(properties := ps, items := items, additional := additional);
      if !Named(node) { return node; }
      var name := ComponentNameLoop(node.title.value);
      if name !in schemas { schemas := schemas[name := node]; }
      return Ref(name);
    }

    method HoistMembers(l: List) returns (x: List)
      modifies this
      ensures (x, schemas) == HoistList(l, old(schemas))
      decreases l
    {
      match l
      case Nil => return Nil;
      case Cons(key, s, rest) =>
        var s1 := HoistSchema(s);
        var rest1 := HoistMembers(rest);
        return Cons(key, s1, rest1);
    }

    /** The hoisting of `document()`: every slot of every operation, one after the other. */
    method HoistDocument(vs: seq<Schema>) returns (xs: seq<Schema>)
      requires forall v <- vs :: NoRefs(v)
      modifies this
      ensures (xs, schemas) == HoistAll(vs, old(schemas))
      ensures |xs| == |vs| && forall i | 0 <= i < |vs| :: xs[i] == Replaced(vs[i]) && Untitled(xs[i])
      ensures Placed(old(schemas), schemas, MovedAll(vs))
      ensures old(schemas) == map[] ==> (AllDenote(schemas, xs, vs) <==> Consistent(NamedInAll(vs)))
    {
      hide *;
      HoistAllReplaces(vs, schemas);
      if schemas == map[] { MeaningIsPreservedExactly(vs); }
      xs := HoistSlots(vs);
    }

    method HoistSlots(vs: seq<Schema>) returns (xs: seq<Schema>)
      modifies this
      ensures (xs, schemas) == HoistAll(vs, old(schemas))
    {
      hide Hoist;
      xs := [];
      ghost var (all, _) := HoistAll(vs, schemas);
      assert vs[0..] == vs && [] + all == all;
      for i := 0 to |vs|
        invariant HoistAll(vs, old(schemas)) == (var (rest, t) := HoistAll(vs[i..], schemas); (xs + rest, t))
      {
        assert vs[i..][1..] == vs[i + 1..];
        ghost var was := xs;
        var x := HoistSchema(vs[i]);
        xs := xs + [x];
        ghost var (rest, _) := HoistAll(vs[i + 1..], schemas);
        assert was + ([x] + rest) == xs + rest;
      }
      assert vs[|vs|..] == [] && xs + [] == xs;
    }
  }

  lemma {:induction false} HoistAllDenotes(vs: seq<Schema>, t: Table, all: set<Schema>)
    requires (forall v <- vs :: NoRefs(v)) && NamedInAll(vs) <= all && Consistent(all) && Describes(t, all)
    ensures var (xs, t1) := HoistAll(vs, t); Grows(t, t1) && AllDenote(t1, xs, vs)
    decreases |vs|
  {
    hide Describes, Consistent, Hoist, NamedIn;
    if vs != [] {
      HoistDenotes(vs[0], t, all);
      var (x, t1) := Hoist(vs[0], t);
      HoistAllDenotes(vs[1..], t1, all);
      var (xs, t2) := HoistAll(vs[1..], t1);
      DenotesGrows(t1, t2, x, vs[0]);
    }
  }

  // ---- The converse: consistency is needed ------------------------------------------------------------------

  /** No named schema is left in place. */
  predicate Hoisted(x: Schema)
    decreases x
  {
    x.Node? ==> !Named(x) && HoistedInside(x)
  }

  predicate HoistedInside(x: Schema)
    requires x.Node?
    decreases x, 0
  {
    (x.properties.Members? ==> HoistedList(x.properties.list)) &&
    (x.items.Some? ==> Hoisted(x.items.value)) && (x.additional.Some? ==> Hoisted(x.additional.value))
  }

  predicate HoistedList(l: List)
    decreases l
  {
    l.Cons? ==> Hoisted(l.schema) && HoistedList(l.rest)
  }

  /** Components are named, under their own names, and hoisted inside. */
  predicate HoistedTable(t: Table) {
    forall n <- t :: t[n].Node? && Named(t[n]) && NameOf(t[n]) == n && HoistedInside(t[n])
  }

  lemma {:induction false} HoistHoists(v: Schema, t: Table)
    requires NoRefs(v) && HoistedTable(t)
    ensures var (x, t1) := Hoist(v, t); Hoisted(x) && HoistedTable(t1)
    decreases v
  {
    hide HoistedTable;
    if v.Node? {
      var (ps, t1) := HoistProperties(v.properties, t);
      var (items, t2) := HoistOption(v.items, t1);
      var (additional, t3) := HoistOption(v.additional, t2);
      if v.properties.Members? { HoistListHoists(v.properties.list, t); }
      if v.items.Some? { HoistHoists(v.items.value, t1); }
      if v.additional.Some? { HoistHoists(v.additional.value, t2); }
      var node := v.(properties := ps, items := items, additional := additional);
      if Named(node) { PlaceHoisted(node, t3); }
    }
  }

  lemma {:induction false} HoistListHoists(l: List, t: Table)
    requires NoRefsList(l) && HoistedTable(t)
    ensures var (x, t1) := HoistList(l, t); HoistedList(x) && HoistedTable(t1)
    decreases l
  {
    hide HoistedTable;
    if l.Cons? {
      HoistHoists(l.schema, t);
      HoistListHoists(l.rest, Hoist(l.schema, t).1);
    }
  }

  lemma PlaceHoisted(node: Schema, t: Table)
    requires node.Node? && Named(node) && HoistedInside(node) && HoistedTable(t)
    ensures HoistedTable(if NameOf(node) in t then t else t[NameOf(node) := node])
  {
  }

  /** In a hoisted schema, whatever denotes a named tree is a reference under that tree's name; so a
      name stands for one tree. */
  lemma {:induction false} NamedAreReferenced(t: Table, x: Schema, v: Schema)
    requires HoistedTable(t) && Hoisted(x) && Denotes(t, x, v)
    ensures forall w <- NamedIn(v) :: Named(w) && Denotes(t, Ref(NameOf(w)), w)
    decreases v, 1
  {
    if x.Ref? {
      InsideAreReferenced(t, t[x.name], v);
    } else if x.Node? {
      InsideAreReferenced(t, x, v);
    }
  }

  lemma {:induction false} InsideAreReferenced(t: Table, x: Schema, v: Schema)
    requires HoistedTable(t) && x.Node? && HoistedInside(x) && NodeDenotes(t, x, v)
    requires Named(v) ==> Denotes(t, Ref(NameOf(v)), v)
    ensures forall w <- NamedIn(v) :: Named(w) && Denotes(t, Ref(NameOf(w)), w)
    decreases v, 0
  {
    hide HoistedTable;
    if v.properties.Members? { ListAreReferenced(t, x.properties.list, v.properties.list); }
    if v.items.Some? { NamedAreReferenced(t, x.items.value, v.items.value); }
    if v.additional.Some? { NamedAreReferenced(t, x.additional.value, v.additional.value); }
  }

  lemma {:induction false} ListAreReferenced(t: Table, x: List, v: List)
    requires HoistedTable(t) && HoistedList(x) && ListDenotes(t, x, v)
    ensures forall w <- NamedInList(v) :: Named(w) && Denotes(t, Ref(NameOf(w)), w)
    decreases v
  {
    hide HoistedTable;
    if v.Cons? {
      NamedAreReferenced(t, x.schema, v.schema);
      ListAreReferenced(t, x.rest, v.rest);
    }
  }

  lemma {:induction false} HoistAllHoists(vs: seq<Schema>, t: Table)
    requires (forall v <- vs :: NoRefs(v)) && HoistedTable(t)
    ensures var (xs, t1) := HoistAll(vs, t); |xs| == |vs| && (forall x <- xs :: Hoisted(x)) && HoistedTable(t1)
    decreases |vs|
  {
    hide HoistedTable, Hoisted, Hoist;
    if vs != [] {
      HoistHoists(vs[0], t);
      HoistAllHoists(vs[1..], Hoist(vs[0], t).1);
    }
  }

  lemma {:induction false} AllNamedAreReferenced(t: Table, xs: seq<Schema>, vs: seq<Schema>)
    requires HoistedTable(t) && (forall x <- xs :: Hoisted(x)) && AllDenote(t, xs, vs)
    ensures forall w <- NamedInAll(vs) :: Named(w) && Denotes(t, Ref(NameOf(w)), w)
    decreases |vs|
  {
    hide HoistedTable, Hoisted, NamedIn, Denotes;
    if vs != [] {
      assert xs[0] in xs;
      NamedAreReferenced(t, xs[0], vs[0]);
      AllNamedAreReferenced(t, xs[1..], vs[1..]);
    }
  }

  /** Resolving every hoisted slot against the final components rebuilds the original schemas, at any
      depth and over any sequence of operations, if and only if equal component names belong to equal
      schemas only. */
  lemma MeaningIsPreservedExactly(vs: seq<Schema>)
    requires forall v <- vs :: NoRefs(v)
    ensures var (xs, t) := HoistAll(vs, map[]); AllDenote(t, xs, vs) <==> Consistent(NamedInAll(vs))
  {
    var (xs, t) := HoistAll(vs, map[]);
    if Consistent(NamedInAll(vs)) { HoistAllDenotes(vs, map[], NamedInAll(vs)); }
    if AllDenote(t, xs, vs) {
      HoistAllHoists(vs, map[]);
      AllNamedAreReferenced(t, xs, vs);
      var all := NamedInAll(vs);
      forall a, b | a in all && b in all && NameOf(a) == NameOf(b) ensures a == b {
        DenotesOne(t, Ref(NameOf(a)), a, b);
      }
    }
  }

  /** Different type names can share a component: `a::b` and `a.b` do. */
  lemma NamesCanCollide()
    ensures ComponentName("a::b") == ComponentName("a.b")
  {
    var s, u := "a::b", "a.b";
    assert s[1..] == "::b" && "::b"[2..] == "b" && "b"[1..] == "";
    assert u[1..] == ".b" && ".b"[1..] == "b";
    assert Mapped("b") == "b" && Mapped(s) == "a" + ("." + "b") && Mapped(u) == "a" + ("." + "b");
  }
}
