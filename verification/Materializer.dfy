/**
 * Command-line options laid over defaults, an imported configuration and the environment. An option struct
 * is a tree; every pass walks its leaves in order, counting them off against the schema.
 */
module Materializer {
  import opened Wrappers

  const NO_SEPARATOR := '\0'

  datatype ArgError = InvalidDefinition | InvalidValue | MissingRequired

  /** A parsed scalar; only whether it is a flag, and set, matters to the relationships between options. */
  datatype Item = Flag(on: bool) | Plain(code: int)

  /** A field by its kind: a scalar, an optional or a vector. */
  datatype Cell = Single(item: Item) | Maybe(item_: Option<Item>) | Many(items: seq<Item>)

  /** Reflected fields: options, nested structs and fields tagged to be left alone. */
  datatype Field = Leaf(cell: Cell) | Struct(fields: seq<Field>) | Ignored

  datatype Default = NoDefault | DefaultText(text: string) | DefaultItem(item: Item)

  /**
   * What the schema says of an option. Reading a scalar's text and checking its range and choices are
   * functions of the field's type.
   */
  datatype Spec = Spec(
    separator: char, constraintsFit: bool, default_: Default, required: bool, needs: seq<nat>, conflicts: seq<nat>,
    read: string -> Option<Item>, accepts: Item -> bool)

  // ----- one option --------------------------------------------------------------------------

  predicate DefinitionFits(spec: Spec, cell: Cell) {
    (spec.separator == NO_SEPARATOR || cell.Many?) && spec.constraintsFit
  }

  function AssignValue(spec: Spec, text: string, cell: Cell): Result<Cell, ArgError> {
    var item := spec.read(text);
    if item == None then Err(InvalidValue)
    else match cell
      case Single(_) => Ok(Single(item.value))
      case Maybe(_) => Ok(Maybe(item))
      case Many(items) => Ok(Many(items + [item.value]))
  }

  function Find(text: string, c: char, begin: nat): (r: Option<nat>)
    ensures r.Some? ==> begin <= r.value < |text| && text[r.value] == c && c !in text[begin..r.value]
    ensures r.None? ==> begin >= |text| || c !in text[begin..]
    decreases |text| - begin
  {
    if begin >= |text| then None
    else if text[begin] == c then Some(begin)
    else
      var r := Find(text, c, begin + 1);
      assert r.Some? ==> text[begin..r.value] == [text[begin]] + text[begin + 1..r.value];
      assert text[begin..] == [text[begin]] + text[begin + 1..];
      r
  }

  /** The parts of a text between separators. */
  function Parts(text: string, separator: char, begin: nat): (r: seq<string>)
    requires begin <= |text|
    ensures r != []
    decreases |text| - begin
  {
    var end := Find(text, separator, begin);
    if end == None then [text[begin..]] else [text[begin..end.value]] + Parts(text, separator, end.value + 1)
  }

  function Rejoin(parts: seq<string>, separator: char): string
    requires parts != []
  {
    if |parts| == 1 then parts[0] else parts[0] + [separator] + Rejoin(parts[1..], separator)
  }

  /** These parts hold no separator and rejoin to the text. */
  ghost predicate Splits(parts: seq<string>, separator: char, text: string) {
    parts != [] && Rejoin(parts, separator) == text && forall part :: part in parts ==> separator !in part
  }

  /** Splitting loses nothing. */
  lemma {:induction false} PartsRejoin(text: string, separator: char, begin: nat)
    requires begin <= |text|
    ensures Splits(Parts(text, separator, begin), separator, text[begin..])
    decreases |text| - begin
  {
    hide Find;
    hide Parts;
    hide Splits;
    PartsStep(text, separator, begin);
    var end := Find(text, separator, begin);
    if end.Some? {
      PartsRejoin(text, separator, end.value + 1);
      SplitsAt(text, begin, end.value, Parts(text, separator, end.value + 1), separator);
    } else {
      SplitsWhole(text[begin..], separator);
    }
  }

  lemma SplitsWhole(text: string, separator: char)
    requires separator !in text
    ensures Splits([text], separator, text)
  {
  }

  lemma SplitsAt(text: string, begin: nat, end: nat, rest: seq<string>, separator: char)
    requires begin <= end < |text| && text[end] == separator && separator !in text[begin..end]
    requires Splits(rest, separator, text[end + 1..])
    ensures Splits([text[begin..end]] + rest, separator, text[begin..])
  {
    hide Splits;
    SplitsStep(text[begin..end], rest, separator, text[end + 1..]);
    AtSeparator(text, begin, end);
  }

  lemma SplitsStep(first: string, rest: seq<string>, separator: char, text: string)
    requires separator !in first && Splits(rest, separator, text)
    ensures Splits([first] + rest, separator, first + [separator] + text)
  {
    RejoinStep(first, rest, separator);
  }

  /** One step of splitting. */
  lemma PartsStep(text: string, separator: char, begin: nat)
    requires begin <= |text|
    ensures var end := Find(text, separator, begin);
      Parts(text, separator, begin)
      == if end == None then [text[begin..]] else [text[begin..end.value]] + Parts(text, separator, end.value + 1)
  {
  }

  lemma RejoinStep(first: string, rest: seq<string>, separator: char)
    requires rest != []
    ensures Rejoin([first] + rest, separator) == first + [separator] + Rejoin(rest, separator)
  {
    assert ([first] + rest)[1..] == rest;
  }

  lemma AtSeparator(text: string, begin: nat, end: nat)
    requires begin <= end < |text|
    ensures text[begin..] == text[begin..end] + [text[end]] + text[end + 1..]
  {
  }

  /** The texts an option's text stands for. */
  function Texts(spec: Spec, text: string): seq<string> {
    if spec.separator == NO_SEPARATOR then [text] else Parts(text, spec.separator, 0)
  }

  function AssignEach(spec: Spec, texts: seq<string>, cell: Cell): Result<Cell, ArgError> {
    if texts == [] then Ok(cell)
    else
      var r := AssignValue(spec, texts[0], cell);
      if r.Err? then r else AssignEach(spec, texts[1..], r.value)
  }

  function AssignText(spec: Spec, text: string, cell: Cell): Result<Cell, ArgError> {
    if spec.separator != NO_SEPARATOR && !cell.Many? then Err(InvalidDefinition)
    else AssignEach(spec, Texts(spec, text), cell)
  }

  predicate Acceptable(spec: Spec, cell: Cell) {
    match cell
    case Single(item) => spec.accepts(item)
    case Maybe(item) => item.Some? ==> spec.accepts(item.value)
    case Many(items) => forall i :: 0 <= i < |items| ==> spec.accepts(items[i])
  }

  function Checked(spec: Spec, r: Result<Cell, ArgError>): Result<Cell, ArgError> {
    if r.Ok? && !Acceptable(spec, r.value) then Err(InvalidValue) else r
  }

  /** An option's field and whether it has been given a value. */
  type Slot = (Cell, bool)

  function WithDefault(spec: Spec, cell: Cell, supplied: bool): Result<Slot, ArgError> {
    if !DefinitionFits(spec, cell) then Err(InvalidDefinition)
    else
      var r := match spec.default_
        case NoDefault => Ok(cell)
        case DefaultText(text) => Checked(spec, AssignText(spec, text, cell))
        case DefaultItem(item) => Checked(spec, Ok(match cell
                                                   case Single(_) => Single(item)
                                                   case Maybe(_) => Maybe(Some(item))
                                                   case Many(items) => Many(items + [item])));
      if r.Err? then Err(r.error) else Ok((r.value, supplied || !spec.default_.NoDefault?))
  }

  /** Given texts in turn, each checked as it is added. */
  function AssignAll(spec: Spec, texts: seq<string>, cell: Cell): Result<Cell, ArgError> {
    if texts == [] then Ok(cell)
    else
      var r := Checked(spec, AssignText(spec, texts[0], cell));
      if r.Err? then r else AssignAll(spec, texts[1..], r.value)
  }

  function Cleared(cell: Cell, supplied: bool): Cell {
    if cell.Many? && supplied then Many([]) else cell
  }

  /** The command line before the environment, and either before what was there. */
  function WithExplicit(spec: Spec, given: seq<string>, env: Option<string>, cell: Cell, supplied: bool)
    : Result<Slot, ArgError>
  {
    var texts := if given != [] then given else if env.Some? then [env.value] else [];
    if !DefinitionFits(spec, cell) then Err(InvalidDefinition)
    else if texts == [] then Ok((cell, supplied))
    else
      var r := AssignAll(spec, texts, Cleared(cell, supplied));
      if r.Err? then Err(r.error) else Ok((r.value, true))
  }

  predicate ImportedSupplied(cell: Cell) {
    cell.Maybe? ==> cell.item_.Some?
  }

  predicate Set(item: Item) {
    item.Flag? ==> item.on
  }

  /** Whether a field counts when options require or exclude each other: a flag must be set. */
  predicate RelationshipActive(cell: Cell, supplied: bool) {
    supplied &&
    match cell
    case Single(item) => Set(item)
    case Maybe(item) => item.Some? && Set(item.value)
    case Many(items) => exists i :: 0 <= i < |items| && Set(items[i])
  }

  // ----- walking the struct ------------------------------------------------------------------

  /** The options of a struct in the order the schema lists them. */
  function Leaves(fields: seq<Field>): seq<Cell>
    decreases fields, 1
  {
    if fields == [] then [] else LeavesOf(fields[0]) + Leaves(fields[1..])
  }

  function LeavesOf(field: Field): seq<Cell>
    decreases field, 0
  {
    match field
    case Leaf(cell) => [cell]
    case Struct(inner) => Leaves(inner)
    case Ignored => []
  }

  /** What a pass does at option k, given its field and whether it was supplied. */
  type Pass = (nat, Cell, bool) -> Result<Slot, ArgError>

  datatype Walk = Walk(cells: seq<Cell>, flags: seq<bool>)

  /** A pass over a list of options from index k on, stopping at the first error. */
  function Visit(pass: Pass, limit: nat, cells: seq<Cell>, k: nat, flags: seq<bool>): Result<Walk, ArgError>
    decreases |cells|
  {
    if cells == [] then Ok(Walk([], flags))
    else if k >= limit || k >= |flags| then Err(InvalidDefinition)
    else
      var r := pass(k, cells[0], flags[k]);
      if r.Err? then Err(r.error)
      else
        var rest := Visit(pass, limit, cells[1..], k + 1, flags[k := r.value.1]);
        if rest.Err? then rest else Ok(Walk([r.value.0] + rest.value.cells, rest.value.flags))
  }

  /** One pass after another over the halves of a list. */
  lemma {:induction false} VisitInTwo(pass: Pass, limit: nat, a: seq<Cell>, b: seq<Cell>, k: nat, flags: seq<bool>)
    ensures var first := Visit(pass, limit, a, k, flags);
      Visit(pass, limit, a + b, k, flags)
      == if first.Err? then first
         else
           var second := Visit(pass, limit, b, k + |a|, first.value.flags);
           if second.Err? then second
           else Ok(Walk(first.value.cells + second.value.cells, second.value.flags))
    decreases |a|
  {
    if a == [] {
      assert a + b == b;
      var second := Visit(pass, limit, b, k, flags);
      if second.Ok? {
        assert [] + second.value.cells == second.value.cells;
      }
    } else {
      assert (a + b)[0] == a[0] && (a + b)[1..] == a[1..] + b;
      if k < limit && k < |flags| && pass(k, a[0], flags[k]).Ok? {
        var r := pass(k, a[0], flags[k]).value;
        VisitInTwo(pass, limit, a[1..], b, k + 1, flags[k := r.1]);
        var first := Visit(pass, limit, a[1..], k + 1, flags[k := r.1]);
        if first.Ok? {
          var second := Visit(pass, limit, b, k + |a|, first.value.flags);
          if second.Ok? {
            assert [r.0] + (first.value.cells + second.value.cells) == [r.0] + first.value.cells + second.value.cells;
          }
        }
      }
    }
  }

  /** What a pass makes of the j-th option alone. */
  function Alone(pass: Pass, cells: seq<Cell>, k: nat, flags: seq<bool>, j: nat): Result<(Cell, bool), ArgError>
    requires j < |cells| && k + j < |flags|
  {
    pass(k + j, cells[j], flags[k + j])
  }

  /** A pass succeeds exactly when it does at every option on its own, and then it did just that. */
  lemma {:induction false} VisitEach(pass: Pass, limit: nat, cells: seq<Cell>, k: nat, flags: seq<bool>)
    requires k + |cells| <= limit && k + |cells| <= |flags|
    ensures var r := Visit(pass, limit, cells, k, flags);
      && (r.Ok? <==> forall j :: 0 <= j < |cells| ==> Alone(pass, cells, k, flags, j).Ok?)
      && (r.Ok? ==>
            && |r.value.cells| == |cells| && |r.value.flags| == |flags|
            && (forall j :: 0 <= j < |cells| ==>
                  Alone(pass, cells, k, flags, j) == Ok((r.value.cells[j], r.value.flags[k + j])))
            && (forall i :: 0 <= i < |flags| && !(k <= i < k + |cells|) ==> r.value.flags[i] == flags[i]))
    decreases |cells|
  {
    if cells != [] {
      var first := Alone(pass, cells, k, flags, 0);
      if first.Ok? {
        var next := flags[k := first.value.1];
        VisitEach(pass, limit, cells[1..], k + 1, next);
        var rest := Visit(pass, limit, cells[1..], k + 1, next);
        hide Visit;
        AloneFurther(pass, cells, k, flags, next);
        if rest.Err? {
          var j: nat :| j < |cells[1..]| && Alone(pass, cells[1..], k + 1, next, j).Err?;
          assert Alone(pass, cells, k, flags, j + 1).Err?;
        } else {
          forall j | 0 < j < |cells|
            ensures Alone(pass, cells, k, flags, j) == Ok((rest.value.cells[j - 1], rest.value.flags[k + j]))
          {
            assert Alone(pass, cells, k, flags, j) == Alone(pass, cells[1..], k + 1, next, j - 1);
          }
        }
      }
    }
  }

  lemma AloneFurther(pass: Pass, cells: seq<Cell>, k: nat, flags: seq<bool>, next: seq<bool>)
    requires cells != [] && k + |cells| <= |flags| == |next| && forall i :: k < i < |flags| ==> next[i] == flags[i]
    ensures forall j :: 0 < j < |cells| ==>
              Alone(pass, cells, k, flags, j) == Alone(pass, cells[1..], k + 1, next, j - 1)
  {
  }

  /** An option somewhere in a struct, at any depth. */
  predicate HasOption(fields: seq<Field>, cell: Cell)
    decreases fields, 1
  {
    exists i :: 0 <= i < |fields| && IsOption(fields[i], cell)
  }

  predicate IsOption(field: Field, cell: Cell)
    decreases field, 0
  {
    match field
    case Leaf(own) => own == cell
    case Struct(inner) => HasOption(inner, cell)
    case Ignored => false
  }

  /** The options a pass visits are those of the struct and of every struct in it, and no ignored field. */
  lemma {:induction false} EveryOptionIsVisited(fields: seq<Field>, cell: Cell)
    ensures cell in Leaves(fields) <==> HasOption(fields, cell)
    decreases fields, 1
  {
    if fields != [] {
      OptionIsVisited(fields[0], cell);
      EveryOptionIsVisited(fields[1..], cell);
      if HasOption(fields, cell) && !IsOption(fields[0], cell) {
        var i :| 0 <= i < |fields| && IsOption(fields[i], cell);
        assert IsOption(fields[1..][i - 1], cell);
      }
      if HasOption(fields[1..], cell) {
        var i :| 0 <= i < |fields[1..]| && IsOption(fields[1..][i], cell);
        assert IsOption(fields[i + 1], cell);
      }
    }
  }

  lemma {:induction false} OptionIsVisited(field: Field, cell: Cell)
    ensures cell in LeavesOf(field) <==> IsOption(field, cell)
    decreases field, 0
  {
    if field.Struct? {
      EveryOptionIsVisited(field.fields, cell);
    }
  }

  /** The same struct but for the values of its options: ignored fields and nesting are as they were. */
  predicate SameShape(a: seq<Field>, b: seq<Field>)
    decreases a, 1
  {
    |a| == |b| && forall i :: 0 <= i < |a| ==> SameField(a[i], b[i])
  }

  predicate SameField(a: Field, b: Field)
    decreases a, 0
  {
    match a
    case Leaf(_) => b.Leaf?
    case Struct(inner) => b.Struct? && SameShape(inner, b.fields)
    case Ignored => b.Ignored?
  }

  lemma {:induction false} ShapeTransitive(a: seq<Field>, b: seq<Field>, c: seq<Field>)
    requires SameShape(a, b) && SameShape(b, c)
    ensures SameShape(a, c)
    decreases a
  {
    forall i | 0 <= i < |a| ensures SameField(a[i], c[i]) {
      assert SameField(a[i], b[i]) && SameField(b[i], c[i]);
      if a[i].Struct? {
        ShapeTransitive(a[i].fields, b[i].fields, c[i].fields);
      }
    }
  }

  lemma LeavesStep(fields: seq<Field>, i: nat)
    requires i < |fields|
    ensures Leaves(fields[i..])
         == LeavesOf(fields[i]) + Leaves(fields[i + 1..])
  {
    assert fields[i..][0] == fields[i] && fields[i..][1..] == fields[i + 1..];
  }

  lemma {:induction false} LeavesInTwo(a: seq<Field>, b: seq<Field>)
    ensures Leaves(a + b) == Leaves(a) + Leaves(b)
    decreases |a|
  {
    if a == [] {
      assert a + b == b;
    } else {
      assert (a + b)[0] == a[0] && (a + b)[1..] == a[1..] + b;
      LeavesInTwo(a[1..], b);
    }
  }

  /** Visits the fields of a struct in order, counting options off against the schema. */
  method Traverse(pass: Pass, limit: nat, fields: seq<Field>, k: nat, flags: seq<bool>)
    returns (error: Option<ArgError>, after: seq<Field>, next: nat, flags': seq<bool>)
    ensures var r := Visit(pass, limit, Leaves(fields), k, flags);
      if r.Err? then error == Some(r.error)
      else
        && error == None && Leaves(after) == r.value.cells && flags' == r.value.flags && next == k + |Leaves(fields)|
        && SameShape(fields, after)
    decreases fields, 1
  {
    error, after, next, flags' := None, [], k, flags;
    WalkedStart(pass, limit, fields, k, flags);
    hide Walked;
    hide Visit;
    hide SameShape;
    hide SameField;
    hide Leaves;
    hide LeavesOf;
    for i := 0 to |fields|
      invariant error == None && Walked(pass, limit, fields, k, flags, i, after, next, flags')
    {
      var field, at, now := Ignored, next, flags';
      error, field, next, flags' := TraverseField(pass, limit, fields[i], next, flags');
      WalkedStep(pass, limit, fields, k, flags, i, after, at, now, field, next, flags');
      if error.Some? {
        return;
      }
      after := after + [field];
    }
    WalkedEnd(pass, limit, fields, k, flags, after, next, flags');
  }

  /** Half-way through the fields: what was visited keeps its shape, and the rest decides the outcome. */
  ghost predicate Walked(pass: Pass, limit: nat, fields: seq<Field>, k: nat, flags: seq<bool>,
                         i: nat, after: seq<Field>, next: nat, now: seq<bool>)
  {
    && |after| == i <= |fields|
    && (forall j :: 0 <= j < i ==> SameField(fields[j], after[j]))
    && next + |Leaves(fields[i..])| == k + |Leaves(fields)|
    && Continues(Visit(pass, limit, Leaves(fields), k, flags), Leaves(after),
                 Visit(pass, limit, Leaves(fields[i..]), next, now))
  }

  lemma WalkedStart(pass: Pass, limit: nat, fields: seq<Field>, k: nat, flags: seq<bool>)
    ensures Walked(pass, limit, fields, k, flags, 0, [], k, flags)
  {
    assert fields[0..] == fields;
    ContinuesFirst(Visit(pass, limit, Leaves(fields), k, flags));
    hide Continues;
    hide Visit;
  }

  lemma WalkedStep(pass: Pass, limit: nat, fields: seq<Field>, k: nat, flags: seq<bool>, i: nat, after: seq<Field>,
                   next: nat, now: seq<bool>, field: Field, next': nat, now': seq<bool>)
    requires i < |fields| && Walked(pass, limit, fields, k, flags, i, after, next, now)
    ensures var r := Visit(pass, limit, LeavesOf(fields[i]), next, now);
      if r.Err? then Visit(pass, limit, Leaves(fields), k, flags) == r
      else
        LeavesOf(field) == r.value.cells && now' == r.value.flags && next' == next + |LeavesOf(fields[i])|
        && SameField(fields[i], field)
        ==> Walked(pass, limit, fields, k, flags, i + 1, after + [field], next', now')
  {
    hide Continues;
    hide Visit;
    hide SameField;
    LeavesStep(fields, i);
    ContinuesOver(pass, limit, Visit(pass, limit, Leaves(fields), k, flags), Leaves(after), LeavesOf(fields[i]),
                  Leaves(fields[i + 1..]), next, now);
    LeavesInTwo(after, [field]);
    LeavesOne(field);
    hide Leaves;
    hide LeavesOf;
  }

  lemma WalkedEnd(pass: Pass, limit: nat, fields: seq<Field>, k: nat, flags: seq<bool>, after: seq<Field>,
                  next: nat, now: seq<bool>)
    requires Walked(pass, limit, fields, k, flags, |fields|, after, next, now)
    ensures Visit(pass, limit, Leaves(fields), k, flags) == Ok(Walk(Leaves(after), now))
    ensures next == k + |Leaves(fields)| && SameShape(fields, after)
  {
    assert fields[|fields|..] == [];
    assert Leaves([]) == [];
    ContinuesLast(pass, limit, Visit(pass, limit, Leaves(fields), k, flags), Leaves(after), next, now);
  }

  method TraverseField(pass: Pass, limit: nat, field: Field, k: nat, flags: seq<bool>)
    returns (error: Option<ArgError>, after: Field, next: nat, flags': seq<bool>)
    ensures var r := Visit(pass, limit, LeavesOf(field), k, flags);
      if r.Err? then error == Some(r.error)
      else
        && error == None && LeavesOf(after) == r.value.cells && flags' == r.value.flags && next == k + |LeavesOf(field)|
        && SameField(field, after)
    decreases field, 0
  {
    error, after, next, flags' := None, field, k, flags;
    match field {
      case Leaf(cell) =>
        VisitOne(pass, limit, cell, k, flags);
        if k >= limit || k >= |flags| {
          error := Some(InvalidDefinition);
          return;
        }
        var r := pass(k, cell, flags[k]);
        if r.Err? {
          error := Some(r.error);
          return;
        }
        after := Leaf(r.value.0);
        flags' := flags[k := r.value.1];
        next := k + 1;
      case Struct(inner) =>
        var inside;
        error, inside, next, flags' := Traverse(pass, limit, inner, k, flags);
        after := Struct(inside);
      case Ignored =>
    }
  }

  lemma ContinuesFirst(whole: Result<Walk, ArgError>)
    ensures Continues(whole, [], whole)
  {
    if whole.Ok? {
      assert [] + whole.value.cells == whole.value.cells;
    }
  }

  lemma ContinuesLast(pass: Pass, limit: nat, whole: Result<Walk, ArgError>, done: seq<Cell>, k: nat, flags: seq<bool>)
    requires Continues(whole, done, Visit(pass, limit, [], k, flags))
    ensures whole == Ok(Walk(done, flags))
  {
    assert done + [] == done;
  }

  /** What a pass gives in all, by what it gave so far and what the rest gives. */
  ghost predicate Continues(whole: Result<Walk, ArgError>, done: seq<Cell>, rest: Result<Walk, ArgError>) {
    whole == if rest.Err? then rest else Ok(Walk(done + rest.value.cells, rest.value.flags))
  }

  lemma LeavesOne(f: Field)
    ensures Leaves([f]) == LeavesOf(f)
  {
    assert [f][1..] == [];
    assert LeavesOf(f) + [] == LeavesOf(f);
  }

  /** What the visit of a part adds to what was done before it. */
  lemma ContinuesOver(pass: Pass, limit: nat, whole: Result<Walk, ArgError>, done: seq<Cell>, a: seq<Cell>,
                      b: seq<Cell>, k: nat, flags: seq<bool>)
    requires Continues(whole, done, Visit(pass, limit, a + b, k, flags))
    ensures var first := Visit(pass, limit, a, k, flags);
      if first.Err? then whole == first
      else Continues(whole, done + first.value.cells, Visit(pass, limit, b, k + |a|, first.value.flags))
  {
    VisitInTwo(pass, limit, a, b, k, flags);
    var first := Visit(pass, limit, a, k, flags);
    if first.Ok? {
      var second := Visit(pass, limit, b, k + |a|, first.value.flags);
      if second.Ok? {
        assert done + (first.value.cells + second.value.cells) == done + first.value.cells + second.value.cells;
      }
    }
  }

  lemma VisitOne(pass: Pass, limit: nat, cell: Cell, k: nat, flags: seq<bool>)
    ensures Visit(pass, limit, [cell], k, flags)
         == if k >= limit || k >= |flags| then Err(InvalidDefinition)
            else
              var r := pass(k, cell, flags[k]);
              if r.Err? then Err(r.error) else Ok(Walk([r.value.0], flags[k := r.value.1]))
  {
    assert [cell][1..] == [];
    if k < limit && k < |flags| && pass(k, cell, flags[k]).Ok? {
      var r := pass(k, cell, flags[k]).value;
      assert [r.0] + [] == [r.0];
    }
  }

  // ----- what a value ends up as -------------------------------------------------------------

  function ItemOf(spec: Spec, text: string): Item {
    var item := spec.read(text);
    if item.Some? then item.value else Plain(0)
  }

  function ItemsOf(spec: Spec, texts: seq<string>): (r: seq<Item>)
    ensures |r| == |texts|
  {
    if texts == [] then [] else [ItemOf(spec, texts[0])] + ItemsOf(spec, texts[1..])
  }

  /** All items a list of option texts stands for, in order. */
  function AllItems(spec: Spec, texts: seq<string>): seq<Item> {
    if texts == [] then [] else ItemsOf(spec, Texts(spec, texts[0])) + AllItems(spec, texts[1..])
  }

  /** A cell given texts: a scalar or optional has the last one, a vector has them all after its own. */
  function Given(cell: Cell, items: seq<Item>): Cell
    requires items != []
  {
    match cell
    case Single(_) => Single(items[|items| - 1])
    case Maybe(_) => Maybe(Some(items[|items| - 1]))
    case Many(own) => Many(own + items)
  }

  lemma {:induction false} AssignEachGives(spec: Spec, texts: seq<string>, cell: Cell)
    requires texts != [] && AssignEach(spec, texts, cell).Ok?
    ensures AssignEach(spec, texts, cell).value == Given(cell, ItemsOf(spec, texts))
    ensures forall text :: text in texts ==> spec.read(text).Some?
    decreases |texts|
  {
    var next := AssignValue(spec, texts[0], cell).value;
    if |texts| > 1 {
      AssignEachGives(spec, texts[1..], next);
      assert texts == [texts[0]] + texts[1..];
    } else {
      assert texts[1..] == [];
    }
  }

  lemma TextsNotEmpty(spec: Spec, text: string)
    ensures Texts(spec, text) != []
  {
  }

  lemma {:induction false} AssignAllGives(spec: Spec, texts: seq<string>, cell: Cell)
    requires texts != [] && AssignAll(spec, texts, cell).Ok?
    ensures AllItems(spec, texts) != []
    ensures AssignAll(spec, texts, cell).value == Given(cell, AllItems(spec, texts))
    ensures Acceptable(spec, AssignAll(spec, texts, cell).value)
    decreases |texts|
  {
    hide Acceptable;
    hide AssignEach;
    var next := AssignText(spec, texts[0], cell).value;
    TextsNotEmpty(spec, texts[0]);
    AssignEachGives(spec, Texts(spec, texts[0]), cell);
    var here := ItemsOf(spec, Texts(spec, texts[0]));
    if |texts| > 1 {
      AssignAllGives(spec, texts[1..], next);
      GivenTwice(cell, here, AllItems(spec, texts[1..]));
    } else {
      assert texts[1..] == [];
      assert here + [] == here;
    }
  }

  lemma GivenTwice(cell: Cell, a: seq<Item>, b: seq<Item>)
    requires a != [] && b != []
    ensures Given(Given(cell, a), b) == Given(cell, a + b)
  {
    if cell.Many? {
      assert cell.items + a + b == cell.items + (a + b);
    }
  }

  // ----- the whole command line --------------------------------------------------------------

  /** The options of the struct come first; options for reading and writing configurations may follow. */
  datatype Schema = Schema(specs: seq<Spec>, userSpecCount: nat)

  type Environment = nat -> Option<string>

  function DefaultPass(schema: Schema): Pass {
    (k: nat, cell: Cell, supplied: bool) =>
      if k < |schema.specs| then WithDefault(schema.specs[k], cell, supplied) else Err(InvalidDefinition)
  }

  function ImportPass(): Pass {
    (k: nat, cell: Cell, supplied: bool) => Ok((cell, ImportedSupplied(cell)))
  }

  function ExplicitPass(schema: Schema, raw: seq<seq<string>>, env: Environment): Pass {
    (k: nat, cell: Cell, supplied: bool) =>
      if k < |schema.specs| && k < |raw| then WithExplicit(schema.specs[k], raw[k], env(k), cell, supplied)
      else Err(InvalidDefinition)
  }

  function ActivePass(supplied: seq<bool>): Pass {
    (k: nat, cell: Cell, active: bool) =>
      if k < |supplied| then Ok((cell, RelationshipActive(cell, supplied[k]))) else Err(InvalidDefinition)
  }

  function AllFalse(n: nat): (r: seq<bool>)
    ensures |r| == n && forall i :: 0 <= i < n ==> !r[i]
  {
    seq(n, _ => false)
  }

  /** A pass over the whole struct, which must have exactly the options the schema lists. */
  function Whole(schema: Schema, pass: Pass, cells: seq<Cell>, flags: seq<bool>): Result<Walk, ArgError> {
    var r := Visit(pass, schema.userSpecCount, cells, 0, flags);
    if r.Ok? && |cells| != schema.userSpecCount then Err(InvalidDefinition) else r
  }

  /** Defaults, then an imported configuration, then the command line and the environment. */
  function Layered(schema: Schema, raw: seq<seq<string>>, env: Environment, cells: seq<Cell>,
                   imported: Option<Result<seq<Cell>, ArgError>>): Result<Walk, ArgError>
  {
    if |schema.specs| != |raw| then Err(InvalidDefinition)
    else
      var defaults := Whole(schema, DefaultPass(schema), cells, AllFalse(|schema.specs|));
      if defaults.Err? || (imported.Some? && imported.value.Err?) then
        Err(if defaults.Err? then defaults.error else imported.value.error)
      else
        var base := if imported == None then defaults
                    else Whole(schema, ImportPass(), imported.value.value, defaults.value.flags);
        if base.Err? then base
        else Whole(schema, ExplicitPass(schema, raw, env), base.value.cells, base.value.flags)
  }

  method RunPass(schema: Schema, pass: Pass, fields: seq<Field>, flags: seq<bool>)
    returns (error: Option<ArgError>, after: seq<Field>, flags': seq<bool>)
    ensures var r := Whole(schema, pass, Leaves(fields), flags);
      if r.Err? then error == Some(r.error)
      else
        && error == None && Leaves(after) == r.value.cells && flags' == r.value.flags
        && SameShape(fields, after)
  {
    var next;
    error, after, next, flags' := Traverse(pass, schema.userSpecCount, fields, 0, flags);
    if error == None && next != schema.userSpecCount {
      error := Some(InvalidDefinition);
    }
  }

  /** The value an option has before the command line, and whether anyone supplied it. */
  function DefaultedValue(spec: Spec, initial: Cell): Cell {
    match spec.default_
    case NoDefault => initial
    case DefaultText(text) => Given(initial, NonEmpty(ItemsOf(spec, Texts(spec, text))))
    case DefaultItem(item) => Given(initial, [item])
  }

  function NonEmpty(items: seq<Item>): (r: seq<Item>)
    ensures r != []
  {
    if items == [] then [Plain(0)] else items
  }

  /** Where an option's final value comes from. */
  ghost predicate Precedence(spec: Spec, given: seq<string>, env: Option<string>, initial: Cell, imported: Option<Cell>,
                             final: Cell, supplied: bool)
  {
    var base := if imported.Some? then imported.value else DefaultedValue(spec, initial);
    var hadValue := if imported.Some? then imported.value != Maybe(None) else !spec.default_.NoDefault?;
    var texts := if given != [] then given else if env.Some? then [env.value] else [];
    && supplied == (hadValue || texts != [])
    && (texts == [] ==> final == base)
    && (texts != [] ==>
          && AllItems(spec, texts) != []
          && final == Given(if base.Many? && hadValue then Many([]) else base, AllItems(spec, texts))
          && Suits(spec, final))
  }

  /** Every item a field holds. */
  function ItemsIn(cell: Cell): seq<Item> {
    match cell
    case Single(item) => [item]
    case Maybe(item) => if item.Some? then [item.value] else []
    case Many(items) => items
  }

  /** Every item a field holds is in range and among the choices. */
  predicate Suits(spec: Spec, cell: Cell) {
    forall item :: item in ItemsIn(cell) ==> spec.accepts(item)
  }

  lemma AcceptableSuits(spec: Spec, cell: Cell)
    ensures Acceptable(spec, cell) <==> Suits(spec, cell)
  {
    if cell.Single? {
      assert cell.item in ItemsIn(cell);
    } else if cell.Maybe? && cell.item_.Some? {
      assert cell.item_.value in ItemsIn(cell);
    } else if cell.Many? && Suits(spec, cell) {
      forall i | 0 <= i < |cell.items| ensures spec.accepts(cell.items[i]) {
        assert cell.items[i] in ItemsIn(cell);
      }
    }
  }

  /** An option is active if it was given a value and holds something other than a flag that is off. */
  lemma ActiveMeans(cell: Cell, supplied: bool)
    ensures RelationshipActive(cell, supplied)
       <==> supplied && exists item :: item in ItemsIn(cell) && item != Flag(false)
  {
    if RelationshipActive(cell, supplied) {
      match cell
      case Single(item) => assert item in ItemsIn(cell);
      case Maybe(item) => assert item.value in ItemsIn(cell);
      case Many(items) =>
        var i :| 0 <= i < |items| && Set(items[i]);
        assert items[i] in ItemsIn(cell);
    }
  }

  /** An option with a separator has its text cut at each one; any other takes it as it is. */
  lemma TextsMean(spec: Spec, text: string)
    ensures if spec.separator == '\0' then Texts(spec, text) == [text]
            else Splits(Texts(spec, text), spec.separator, text)
  {
    if spec.separator != '\0' {
      PartsRejoin(text, spec.separator, 0);
      assert text[0..] == text;
    }
  }

  // ----- when the layers succeed -------------------------------------------------------------

  predicate Readable(spec: Spec, text: string) {
    forall part :: part in Texts(spec, text) ==> spec.read(part).Some?
  }

  /** Only a vector may have a separator, and the constraints must fit the type. */
  predicate WellDefined(spec: Spec, cell: Cell) {
    (spec.separator == '\0' || cell.Many?) && spec.constraintsFit
  }

  /** The default can be read, and what it makes of the field suits. */
  predicate DefaultWorks(spec: Spec, cell: Cell) {
    && WellDefined(spec, cell)
    && (spec.default_.DefaultText? ==> Readable(spec, spec.default_.text))
    && (!spec.default_.NoDefault? ==> Suits(spec, DefaultedValue(spec, cell)))
  }

  /** Every text can be read, and after each one the field suits. */
  ghost predicate TextsWork(spec: Spec, texts: seq<string>, cell: Cell) {
    && (forall text :: text in texts ==> Readable(spec, text))
    && (forall n :: 0 < n <= |texts| ==> Suits(spec, Given(cell, NonEmpty(AllItems(spec, texts[..n])))))
  }

  ghost predicate ExplicitWorks(spec: Spec, given: seq<string>, env: Option<string>, cell: Cell, supplied: bool) {
    var texts := if given != [] then given else if env.Some? then [env.value] else [];
    WellDefined(spec, cell) && TextsWork(spec, texts, if cell.Many? && supplied then Many([]) else cell)
  }

  lemma {:induction false} AssignEachSucceeds(spec: Spec, texts: seq<string>, cell: Cell)
    ensures AssignEach(spec, texts, cell).Ok? <==> forall text :: text in texts ==> spec.read(text).Some?
    decreases |texts|
  {
    if texts != [] {
      assert texts == [texts[0]] + texts[1..];
      if spec.read(texts[0]).Some? {
        AssignEachSucceeds(spec, texts[1..], AssignValue(spec, texts[0], cell).value);
      }
    }
  }

  lemma DefaultSucceeds(spec: Spec, cell: Cell)
    ensures WithDefault(spec, cell, false).Ok? <==> DefaultWorks(spec, cell)
  {
    hide Acceptable;
    hide Suits;
    if spec.default_.DefaultText? {
      TextsNotEmpty(spec, spec.default_.text);
      AssignEachSucceeds(spec, Texts(spec, spec.default_.text), cell);
      if AssignEach(spec, Texts(spec, spec.default_.text), cell).Ok? {
        AssignEachGives(spec, Texts(spec, spec.default_.text), cell);
      }
    }
    AcceptableSuits(spec, DefaultedValue(spec, cell));
  }

  /** One text more at the front. */
  lemma TextsWorkStep(spec: Spec, texts: seq<string>, cell: Cell)
    requires texts != []
    ensures var here := ItemsOf(spec, Texts(spec, texts[0]));
      here != [] &&
      (TextsWork(spec, texts, cell) <==>
         Readable(spec, texts[0]) && Suits(spec, Given(cell, here)) && TextsWork(spec, texts[1..], Given(cell, here)))
  {
    hide Suits;
    hide Readable;
    hide Texts;
    TextsNotEmpty(spec, texts[0]);
    var here, rest := ItemsOf(spec, Texts(spec, texts[0])), texts[1..];
    assert texts == [texts[0]] + rest;
    forall n | 0 < n <= |texts|
      ensures Given(cell, NonEmpty(AllItems(spec, texts[..n])))
           == if n == 1 then Given(cell, here)
              else Given(Given(cell, here), NonEmpty(AllItems(spec, rest[..n - 1])))
    {
      PrefixItems(spec, texts, n);
      if n > 1 {
        SomeItems(spec, rest[..n - 1]);
        GivenTwice(cell, here, AllItems(spec, rest[..n - 1]));
      }
    }
    if TextsWork(spec, texts, cell) {
      forall n | 0 < n <= |rest| ensures Suits(spec, Given(Given(cell, here), NonEmpty(AllItems(spec, rest[..n])))) {
        assert Suits(spec, Given(cell, NonEmpty(AllItems(spec, texts[..n + 1]))));
      }
      assert Suits(spec, Given(cell, NonEmpty(AllItems(spec, texts[..1]))));
    }
  }

  lemma PrefixItems(spec: Spec, texts: seq<string>, n: nat)
    requires 0 < n <= |texts|
    ensures AllItems(spec, texts[..n]) == ItemsOf(spec, Texts(spec, texts[0])) + AllItems(spec, texts[1..][..n - 1])
  {
    assert texts[..n][0] == texts[0] && texts[..n][1..] == texts[1..][..n - 1];
  }

  lemma SomeItems(spec: Spec, texts: seq<string>)
    requires texts != []
    ensures AllItems(spec, texts) != []
  {
    TextsNotEmpty(spec, texts[0]);
  }

  lemma {:induction false} AssignAllSucceeds(spec: Spec, texts: seq<string>, cell: Cell)
    requires WellDefined(spec, cell)
    ensures AssignAll(spec, texts, cell).Ok? <==> TextsWork(spec, texts, cell)
    decreases |texts|
  {
    hide Acceptable;
    hide AssignEach;
    if texts != [] {
      TextsWorkStep(spec, texts, cell);
      TextsNotEmpty(spec, texts[0]);
      AssignEachSucceeds(spec, Texts(spec, texts[0]), cell);
      hide TextsWork;
      var r := AssignEach(spec, Texts(spec, texts[0]), cell);
      if r.Ok? {
        AssignEachGives(spec, Texts(spec, texts[0]), cell);
        AcceptableSuits(spec, r.value);
        AssignAllSucceeds(spec, texts[1..], r.value);
      }
    }
  }

  lemma ExplicitSucceeds(spec: Spec, given: seq<string>, env: Option<string>, cell: Cell, supplied: bool)
    ensures WithExplicit(spec, given, env, cell, supplied).Ok? <==> ExplicitWorks(spec, given, env, cell, supplied)
  {
    hide AssignAll;
    hide TextsWork;
    var texts := if given != [] then given else if env.Some? then [env.value] else [];
    if WellDefined(spec, cell) {
      AssignAllSucceeds(spec, texts, Cleared(cell, supplied));
      if texts == [] {
        NoTextsWork(spec, Cleared(cell, supplied));
      }
    }
  }

  lemma NoTextsWork(spec: Spec, cell: Cell)
    ensures TextsWork(spec, [], cell)
  {
  }

  /** What an option has before the command line, and whether it was given. */
  function Before(spec: Spec, initial: Cell, imported: Option<Cell>): Slot {
    if imported.Some? then (imported.value, imported.value != Maybe(None))
    else (DefaultedValue(spec, initial), !spec.default_.NoDefault?)
  }

  /** All layers of one option work. */
  ghost predicate OptionWorks(spec: Spec, given: seq<string>, env: Option<string>, initial: Cell,
                              imported: Option<Cell>)
  {
    && DefaultWorks(spec, initial)
    && ExplicitWorks(spec, given, env, Before(spec, initial, imported).0, Before(spec, initial, imported).1)
  }

  /**
   * The layers succeed if and only if there are as many raw options as the schema has and as many fields as it has
   * user options, the configuration, if one is imported, is there with as many fields, and every option's default,
   * command-line and environment values can be read and suit.
   */
  lemma LayersSucceed(schema: Schema, raw: seq<seq<string>>, env: Environment, cells: seq<Cell>,
                      imported: Option<Result<seq<Cell>, ArgError>>)
    requires schema.userSpecCount <= |schema.specs|
    ensures Layered(schema, raw, env, cells, imported).Ok?
       <==> && |raw| == |schema.specs| && |cells| == schema.userSpecCount
            && (imported.Some? ==> imported.value.Ok? && |imported.value.value| == schema.userSpecCount)
            && forall k :: 0 <= k < schema.userSpecCount ==>
                 OptionWorks(schema.specs[k], raw[k], env(k), cells[k],
                             if imported.Some? then Some(imported.value.value[k]) else None)
  {
    hide Whole;
    hide OptionWorks;
    if |raw| == |schema.specs| && |cells| == schema.userSpecCount
       && (imported.Some? ==> imported.value.Ok? && |imported.value.value| == schema.userSpecCount)
    {
      LayersOfEach(schema, raw, env, cells, imported);
    } else if Layered(schema, raw, env, cells, imported).Ok? {
      LayersInOrder(schema, raw, env, cells, imported);
    }
  }

  lemma LayersOfEach(schema: Schema, raw: seq<seq<string>>, env: Environment, cells: seq<Cell>,
                     imported: Option<Result<seq<Cell>, ArgError>>)
    requires |raw| == |schema.specs| && |cells| == schema.userSpecCount <= |schema.specs|
    requires imported.Some? ==> imported.value.Ok? && |imported.value.value| == schema.userSpecCount
    ensures Layered(schema, raw, env, cells, imported).Ok?
       <==> forall k :: 0 <= k < schema.userSpecCount ==>
              OptionWorks(schema.specs[k], raw[k], env(k), cells[k],
                          if imported.Some? then Some(imported.value.value[k]) else None)
  {
    hide Whole;
    hide DefaultWorks;
    hide ExplicitWorks;
    var none := AllFalse(|schema.specs|);
    WholeEach(schema, DefaultPass(schema), cells, none);
    var defaults := Whole(schema, DefaultPass(schema), cells, none);
    forall k | 0 <= k < |cells|
      ensures DefaultPass(schema)(k, cells[k], none[k]).Ok? <==> DefaultWorks(schema.specs[k], cells[k])
    {
      DefaultSucceeds(schema.specs[k], cells[k]);
    }
    if defaults.Ok? {
      var flags := defaults.value.flags;
      if imported.Some? {
        WholeEach(schema, ImportPass(), imported.value.value, flags);
      }
      var base := if imported.Some? then Whole(schema, ImportPass(), imported.value.value, flags) else defaults;
      WholeEach(schema, ExplicitPass(schema, raw, env), base.value.cells, base.value.flags);
      forall k | 0 <= k < |cells|
        ensures ExplicitPass(schema, raw, env)(k, base.value.cells[k], base.value.flags[k]).Ok?
           <==> OptionWorks(schema.specs[k], raw[k], env(k), cells[k],
                            if imported.Some? then Some(imported.value.value[k]) else None)
      {
        DefaultSucceeds(schema.specs[k], cells[k]);
        DefaultGives(schema.specs[k], cells[k]);
        ExplicitSucceeds(schema.specs[k], raw[k], env(k), base.value.cells[k], base.value.flags[k]);
      }
    }
  }

  lemma DefaultGives(spec: Spec, cell: Cell)
    requires WithDefault(spec, cell, false).Ok?
    ensures WithDefault(spec, cell, false).value == (DefaultedValue(spec, cell), !spec.default_.NoDefault?)
  {
    if spec.default_.DefaultText? {
      TextsNotEmpty(spec, spec.default_.text);
      AssignEachGives(spec, Texts(spec, spec.default_.text), cell);
    }
  }

  lemma ExplicitGives(spec: Spec, given: seq<string>, env: Option<string>, cell: Cell, supplied: bool)
    requires WithExplicit(spec, given, env, cell, supplied).Ok?
    ensures var texts := if given != [] then given else if env.Some? then [env.value] else [];
      WithExplicit(spec, given, env, cell, supplied).value
      == if texts == [] then (cell, supplied)
         else (Given(Cleared(cell, supplied), NonEmpty(AllItems(spec, texts))), true)
    ensures var texts := if given != [] then given else if env.Some? then [env.value] else [];
      texts != [] ==>
        AllItems(spec, texts) != [] && Acceptable(spec, WithExplicit(spec, given, env, cell, supplied).value.0)
  {
    var texts := if given != [] then given else if env.Some? then [env.value] else [];
    hide Acceptable;
    if texts != [] {
      AssignAllGives(spec, texts, Cleared(cell, supplied));
    }
  }

  /** A pass over the whole struct, option by option. */
  lemma WholeEach(schema: Schema, pass: Pass, cells: seq<Cell>, flags: seq<bool>)
    requires |cells| == schema.userSpecCount <= |flags|
    ensures var r := Whole(schema, pass, cells, flags);
      && (r.Ok? <==> forall k :: 0 <= k < |cells| ==> pass(k, cells[k], flags[k]).Ok?)
      && (r.Ok? ==>
            && |r.value.cells| == |cells| && |r.value.flags| == |flags|
            && (forall k :: 0 <= k < |cells| ==>
                  pass(k, cells[k], flags[k]) == Ok((r.value.cells[k], r.value.flags[k])))
            && (forall i :: |cells| <= i < |flags| ==> r.value.flags[i] == flags[i]))
  {
    VisitEach(pass, schema.userSpecCount, cells, 0, flags);
    hide Visit;
    var r := Whole(schema, pass, cells, flags);
    forall k | 0 <= k < |cells|
      ensures pass(k, cells[k], flags[k]) == Alone(pass, cells, 0, flags, k)
      ensures r.Ok? ==> pass(k, cells[k], flags[k]) == Ok((r.value.cells[k], r.value.flags[k]))
    {
    }
  }

  /**
   * Every option ends up with its command-line value, else its environment value, else what an imported
   * configuration or otherwise its default gave it, else its initial value; a vector's command-line or
   * environment values replace what was supplied before but are added to an initial value nobody supplied.
   */
  lemma LayersInOrder(schema: Schema, raw: seq<seq<string>>, env: Environment, cells: seq<Cell>,
                      imported: Option<Result<seq<Cell>, ArgError>>)
    requires schema.userSpecCount <= |schema.specs|
    requires Layered(schema, raw, env, cells, imported).Ok?
    ensures var r := Layered(schema, raw, env, cells, imported).value;
      && |raw| == |schema.specs| && |cells| == |r.cells| == schema.userSpecCount && |r.flags| == |schema.specs|
      && (imported.Some? ==> imported.value.Ok? && |imported.value.value| == |cells|)
      && (forall k :: 0 <= k < |cells| ==>
            Precedence(schema.specs[k], raw[k], env(k), cells[k],
                       if imported.Some? then Some(imported.value.value[k]) else None, r.cells[k], r.flags[k]))
      && (forall i :: |cells| <= i < |r.flags| ==> !r.flags[i])
  {
    hide Whole;
    var none := AllFalse(|schema.specs|);
    Counts(schema, DefaultPass(schema), cells, none);
    WholeEach(schema, DefaultPass(schema), cells, none);
    var defaults := Whole(schema, DefaultPass(schema), cells, none).value;
    var base := defaults;
    if imported.Some? {
      Counts(schema, ImportPass(), imported.value.value, defaults.flags);
      WholeEach(schema, ImportPass(), imported.value.value, defaults.flags);
      base := Whole(schema, ImportPass(), imported.value.value, defaults.flags).value;
    }
    WholeEach(schema, ExplicitPass(schema, raw, env), base.cells, base.flags);
    var r := Layered(schema, raw, env, cells, imported).value;
    forall k | 0 <= k < |cells|
      ensures Precedence(schema.specs[k], raw[k], env(k), cells[k],
                         if imported.Some? then Some(imported.value.value[k]) else None, r.cells[k], r.flags[k])
    {
      OptionLayers(schema, raw, env, cells[k], if imported.Some? then Some(imported.value.value[k]) else None, k,
                   base.cells[k], base.flags[k], r.cells[k], r.flags[k]);
    }
  }

  lemma Counts(schema: Schema, pass: Pass, cells: seq<Cell>, flags: seq<bool>)
    requires Whole(schema, pass, cells, flags).Ok?
    ensures |cells| == schema.userSpecCount
  {
  }

  /** The three layers of one option. */
  lemma OptionLayers(schema: Schema, raw: seq<seq<string>>, env: Environment, initial: Cell, imported: Option<Cell>,
                     k: nat, base: Cell, hadValue: bool, final: Cell, supplied: bool)
    requires k < |schema.specs| == |raw|
    requires WithDefault(schema.specs[k], initial, false).Ok?
    requires (base, hadValue) == if imported.Some? then (imported.value, ImportedSupplied(imported.value))
                                 else WithDefault(schema.specs[k], initial, false).value
    requires WithExplicit(schema.specs[k], raw[k], env(k), base, hadValue) == Ok((final, supplied))
    ensures Precedence(schema.specs[k], raw[k], env(k), initial, imported, final, supplied)
  {
    DefaultGives(schema.specs[k], initial);
    ExplicitGives(schema.specs[k], raw[k], env(k), base, hadValue);
    AcceptableSuits(schema.specs[k], final);
  }

  // ----- relationships between options -------------------------------------------------------

  ghost predicate RequiredGiven(schema: Schema, supplied: seq<bool>)
    requires schema.userSpecCount <= |schema.specs| && schema.userSpecCount <= |supplied|
  {
    forall k :: 0 <= k < schema.userSpecCount && schema.specs[k].required ==> supplied[k]
  }

  /** An active option's needs are active, its conflicts are not, and all of them name other options. */
  ghost predicate RelationsHold(schema: Schema, k: nat, active: seq<bool>)
    requires k < |schema.specs| == |active|
  {
    active[k] ==>
      && (forall j :: j in schema.specs[k].needs ==> j < |schema.specs| && j != k && active[j])
      && (forall j :: j in schema.specs[k].conflicts ==> j < |schema.specs| && j != k && !active[j])
  }

  ghost predicate Consistent(schema: Schema, supplied: seq<bool>, active: seq<bool>)
    requires schema.userSpecCount <= |schema.specs| == |active| && schema.userSpecCount <= |supplied|
  {
    RequiredGiven(schema, supplied) && forall k :: 0 <= k < schema.userSpecCount ==> RelationsHold(schema, k, active)
  }

  method ValidateRequired(schema: Schema, supplied: seq<bool>) returns (error: Option<ArgError>)
    requires schema.userSpecCount <= |schema.specs| && schema.userSpecCount <= |supplied|
    ensures error == None <==> RequiredGiven(schema, supplied)
    ensures error.Some? ==> error.value == MissingRequired
  {
    for k := 0 to schema.userSpecCount
      invariant forall j :: 0 <= j < k && schema.specs[j].required ==> supplied[j]
    {
      if schema.specs[k].required && !supplied[k] {
        return Some(MissingRequired);
      }
    }
    return None;
  }

  method ValidateRelations(schema: Schema, active: seq<bool>) returns (error: Option<ArgError>)
    requires schema.userSpecCount <= |schema.specs| == |active|
    ensures error == None <==> forall k :: 0 <= k < schema.userSpecCount ==> RelationsHold(schema, k, active)
    ensures error.Some? ==>
      exists k: nat, j: nat :: k < schema.userSpecCount && active[k] && Breaks(schema, k, active, j, error.value)
  {
    for k := 0 to schema.userSpecCount
      invariant forall j :: 0 <= j < k ==> RelationsHold(schema, j, active)
    {
      if !active[k] {
        continue;
      }
      var spec := schema.specs[k];
      for i := 0 to |spec.needs|
        invariant forall j :: 0 <= j < i ==> Needed(schema, k, active, spec.needs[j])
      {
        var other := spec.needs[i];
        assert other in schema.specs[k].needs;
        assert RelationsHold(schema, k, active) ==> Needed(schema, k, active, other);
        if other >= |schema.specs| || other == k {
          assert Breaks(schema, k, active, other, InvalidDefinition);
          return Some(InvalidDefinition);
        }
        if !active[other] {
          assert Breaks(schema, k, active, other, MissingRequired);
          return Some(MissingRequired);
        }
      }
      for i := 0 to |spec.conflicts|
        invariant forall j :: 0 <= j < i ==> Excluded(schema, k, active, spec.conflicts[j])
      {
        var other := spec.conflicts[i];
        assert other in schema.specs[k].conflicts;
        assert RelationsHold(schema, k, active) ==> Excluded(schema, k, active, other);
        if other >= |schema.specs| || other == k {
          assert Breaks(schema, k, active, other, InvalidDefinition);
          return Some(InvalidDefinition);
        }
        if active[other] {
          assert Breaks(schema, k, active, other, InvalidValue);
          return Some(InvalidValue);
        }
      }
      assert forall j :: j in spec.needs ==> Needed(schema, k, active, j);
      assert forall j :: j in spec.conflicts ==> Excluded(schema, k, active, j);
    }
    return None;
  }

  /** What is wrong between option k and another it names. */
  predicate Breaks(schema: Schema, k: nat, active: seq<bool>, j: nat, error: ArgError)
    requires k < |schema.specs| == |active|
  {
    match error
    case InvalidDefinition =>
      (j in schema.specs[k].needs || j in schema.specs[k].conflicts) && (j >= |schema.specs| || j == k)
    case MissingRequired => j in schema.specs[k].needs && j < |schema.specs| && !active[j]
    case InvalidValue => j in schema.specs[k].conflicts && j < |schema.specs| && active[j]
  }

  predicate Needed(schema: Schema, k: nat, active: seq<bool>, j: nat)
    requires |schema.specs| == |active|
  {
    j < |schema.specs| && j != k && active[j]
  }

  predicate Excluded(schema: Schema, k: nat, active: seq<bool>, j: nat)
    requires |schema.specs| == |active|
  {
    j < |schema.specs| && j != k && !active[j]
  }

  /** Which options count: given, not empty, and set if they are flags. */
  function ActiveOptions(schema: Schema, cells: seq<Cell>, supplied: seq<bool>): (r: seq<bool>)
    requires |supplied| == |schema.specs|
    ensures |r| == |schema.specs|
    ensures forall k :: 0 <= k < |r| ==> r[k] == (k < |cells| && RelationshipActive(cells[k], supplied[k]))
  {
    seq(|schema.specs|, k requires 0 <= k < |schema.specs| => k < |cells| && RelationshipActive(cells[k], supplied[k]))
  }

  method ValidateMaterialized(schema: Schema, fields: seq<Field>, supplied: seq<bool>) returns (error: Option<ArgError>)
    requires |supplied| == |schema.specs| && |Leaves(fields)| == schema.userSpecCount <= |schema.specs|
    ensures error == None <==> Consistent(schema, supplied, ActiveOptions(schema, Leaves(fields), supplied))
    ensures !RequiredGiven(schema, supplied) ==> error == Some(MissingRequired)
  {
    var flags := AllFalse(|schema.specs|);
    WholeEach(schema, ActivePass(supplied), Leaves(fields), flags);
    var failed, same, active := RunPass(schema, ActivePass(supplied), fields, flags);
    assert active == ActiveOptions(schema, Leaves(fields), supplied);
    error := ValidateRequired(schema, supplied);
    if error == None {
      error := ValidateRelations(schema, active);
    }
  }

  /**
   * Reads a command line into an option struct: the layers in order, then the rules between options. It
   * succeeds exactly when every layer does and every rule holds.
   */
  method ParseOptionsInto(schema: Schema, raw: seq<seq<string>>, env: Environment, fields: seq<Field>,
                          imported: Option<Result<seq<Field>, ArgError>>)
    returns (r: Result<seq<Field>, ArgError>)
    requires schema.userSpecCount <= |schema.specs|
    ensures var layers := Layered(schema, raw, env, Leaves(fields), LeavesRead(imported));
      if layers.Err? then r == Err(layers.error)
      else
        && |layers.value.flags| == |schema.specs|
        && (r.Ok? <==> Consistent(schema, layers.value.flags,
                                  ActiveOptions(schema, layers.value.cells, layers.value.flags)))
        && (r.Ok? ==> Leaves(r.value) == layers.value.cells && SameShape(ReadOr(imported, fields), r.value))
  {
    if |schema.specs| != |raw| {
      return Err(InvalidDefinition);
    }
    var error, options, supplied := RunPass(schema, DefaultPass(schema), fields, AllFalse(|schema.specs|));
    if error.Some? {
      return Err(error.value);
    }
    if imported.Some? {
      if imported.value.Err? {
        return Err(imported.value.error);
      }
      error, options, supplied := RunPass(schema, ImportPass(), imported.value.value, supplied);
      if error.Some? {
        return Err(error.value);
      }
    }
    ghost var base := options;
    error, options, supplied := RunPass(schema, ExplicitPass(schema, raw, env), options, supplied);
    if error.Some? {
      return Err(error.value);
    }
    LayersInOrder(schema, raw, env, Leaves(fields), LeavesRead(imported));
    error := ValidateMaterialized(schema, options, supplied);
    if error.Some? {
      return Err(error.value);
    }
    ShapeTransitive(ReadOr(imported, fields), base, options);
    return Ok(options);
  }

  /** The struct that was read from a configuration, if one was. */
  function ReadOr(imported: Option<Result<seq<Field>, ArgError>>, fields: seq<Field>): seq<Field> {
    if imported.Some? && imported.value.Ok? then imported.value.value else fields
  }

  function LeavesRead(imported: Option<Result<seq<Field>, ArgError>>): Option<Result<seq<Cell>, ArgError>> {
    match imported
    case None => None
    case Some(Err(error)) => Some(Err(error))
    case Some(Ok(fields)) => Some(Ok(Leaves(fields)))
  }
}
