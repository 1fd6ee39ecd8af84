/**
 valueOptionSpellings of program.ts: the spellings of options that take values, or a conflict
 between two options that share a spelling and not its shape.
 */
module OptionSpellings {
  import opened Results

  datatype Shape = Boolean | Required | Optional

  datatype OptionSpec = OptionSpec(long: string, short: Option<string>, shape: Shape)

  datatype CommandSpec = CommandSpec(path: string, aliases: seq<string>, options: seq<OptionSpec>)

  /** The spellings of options that take values. */
  datatype Spellings = Spellings(long: map<string, Shape>, short: map<string, Shape>)

  datatype Conflict = Conflict(spelling: string, existing: Shape, shape: Shape)

  /** One spelling and the shape an option declares for it. */
  datatype Entry = Entry(spelling: string, shape: Shape)

  function LongEntries(options: seq<OptionSpec>): set<Entry> {
    set option <- options :: Entry(option.long, option.shape)
  }

  function ShortEntries(options: seq<OptionSpec>): set<Entry> {
    set option <- options | option.short.Some? :: Entry(option.short.value, option.shape)
  }

  function OptionsOf(specs: seq<CommandSpec>): seq<OptionSpec> {
    if specs == [] then [] else OptionsOf(specs[..|specs| - 1]) + specs[|specs| - 1].options
  }

  /** No spelling is declared with two shapes. */
  ghost predicate Consistent(entries: set<Entry>) {
    forall a, b :: a in entries && b in entries && a.spelling == b.spelling ==> a == b
  }

  /** What has been recorded for one kind of spelling: all shapes, and those that take values. */
  datatype Table = Table(shapes: map<string, Shape>, values: map<string, Shape>)

  /** The map gives the spelling this shape. */
  predicate Gives(table: map<string, Shape>, entry: Entry) {
    entry.spelling in table && table[entry.spelling] == entry.shape
  }

  ghost predicate TellsShapes(shapes: map<string, Shape>, entries: set<Entry>) {
    forall entry :: Gives(shapes, entry) <==> entry in entries
  }

  ghost predicate TellsValues(values: map<string, Shape>, entries: set<Entry>) {
    forall entry :: Gives(values, entry) <==> entry.shape != Boolean && entry in entries
  }

  ghost predicate Records(table: Table, entries: set<Entry>) {
    TellsShapes(table.shapes, entries) && TellsValues(table.values, entries)
  }

  lemma RecordedIsConsistent(table: Table, entries: set<Entry>)
    requires Records(table, entries)
    ensures Consistent(entries)
  {
    forall a, b | a in entries && b in entries && a.spelling == b.spelling
      ensures a == b
    {
      assert Gives(table.shapes, a) && Gives(table.shapes, b);
    }
  }

  /** A spelling that was declared with one shape and then with another. */
  ghost predicate IsConflict(conflict: Conflict, entries: set<Entry>) {
    && conflict.existing != conflict.shape
    && Entry(conflict.spelling, conflict.existing) in entries && Entry(conflict.spelling, conflict.shape) in entries
  }

  /** The inner function of valueOptionSpellings. */
  method Record(table: Table, spelling: string, shape: Shape, ghost entries: set<Entry>)
    returns (r: Result<Table, Conflict>)
    requires Records(table, entries)
    ensures r.Ok? ==> Records(r.value, entries + {Entry(spelling, shape)})
    ensures r.Err? ==> IsConflict(r.error, entries + {Entry(spelling, shape)})
  {
    if spelling in table.shapes && table.shapes[spelling] != shape {
      assert Gives(table.shapes, Entry(spelling, table.shapes[spelling]));
      return Err(Conflict(spelling, table.shapes[spelling], shape));
    }
    var shapes := table.shapes[spelling := shape];
    var values := if shape == Boolean then table.values else table.values[spelling := shape];
    RecordedOne(table, spelling, shape, entries, shapes, values);
    r := Ok(Table(shapes, values));
  }

  lemma RecordedOne(table: Table, spelling: string, shape: Shape, entries: set<Entry>, shapes: map<string, Shape>, values: map<string, Shape>)
    requires Records(table, entries) && (spelling in table.shapes ==> table.shapes[spelling] == shape)
    requires shapes == table.shapes[spelling := shape]
    requires values == if shape == Boolean then table.values else table.values[spelling := shape]
    ensures Records(Table(shapes, values), entries + {Entry(spelling, shape)})
  {
    ShapesRecorded(table.shapes, spelling, shape, entries, shapes);
    forall entry | entry in entries && entry.spelling == spelling
      ensures entry.shape == shape
    {
      assert Gives(table.shapes, entry);
    }
    ValuesRecorded(table.values, spelling, shape, entries, values);
  }

  lemma ShapesRecorded(before: map<string, Shape>, spelling: string, shape: Shape, entries: set<Entry>, shapes: map<string, Shape>)
    requires TellsShapes(before, entries) && (spelling in before ==> before[spelling] == shape)
    requires shapes == before[spelling := shape]
    ensures TellsShapes(shapes, entries + {Entry(spelling, shape)})
  {
    forall entry
      ensures Gives(shapes, entry) <==> entry in entries + {Entry(spelling, shape)}
    {
      assert Gives(before, entry) <==> entry in entries;
    }
  }

  lemma ValuesRecorded(before: map<string, Shape>, spelling: string, shape: Shape, entries: set<Entry>, values: map<string, Shape>)
    requires TellsValues(before, entries)
    requires forall entry :: entry in entries && entry.spelling == spelling ==> entry.shape == shape
    requires values == if shape == Boolean then before else before[spelling := shape]
    ensures TellsValues(values, entries + {Entry(spelling, shape)})
  {
    forall entry
      ensures Gives(values, entry) <==> entry.shape != Boolean && entry in entries + {Entry(spelling, shape)}
    {
      assert Gives(before, entry) <==> entry.shape != Boolean && entry in entries;
    }
  }

  lemma OptionsGrow(specs: seq<CommandSpec>, i: nat)
    requires i < |specs|
    ensures OptionsOf(specs[..i + 1]) == OptionsOf(specs[..i]) + specs[i].options
  {
    assert specs[..i + 1][..i] == specs[..i];
  }

  lemma {:induction false} OptionsInAll(specs: seq<CommandSpec>, i: nat)
    requires i <= |specs|
    ensures OptionsOf(specs[..i]) <= OptionsOf(specs)
    decreases |specs| - i
  {
    if i == |specs| {
      assert specs[..i] == specs;
    } else {
      OptionsGrow(specs, i);
      OptionsInAll(specs, i + 1);
    }
  }

  lemma EntriesGrow(options: seq<OptionSpec>, option: OptionSpec)
    ensures LongEntries(options + [option]) == LongEntries(options) + {Entry(option.long, option.shape)}
    ensures ShortEntries(options + [option]) ==
            ShortEntries(options) + (if option.short.None? then {} else {Entry(option.short.value, option.shape)})
  {
    var more := options + [option];
    assert more[|options|] == option;
    assert forall o :: o in more <==> o in options || o == option;
  }

  lemma ConflictGrows(conflict: Conflict, part: seq<OptionSpec>, all: seq<OptionSpec>)
    requires part <= all
    ensures IsConflict(conflict, LongEntries(part)) ==> IsConflict(conflict, LongEntries(all))
    ensures IsConflict(conflict, ShortEntries(part)) ==> IsConflict(conflict, ShortEntries(all))
  {
    assert forall o :: o in part ==> o in all;
  }

  /** The value options of the given specs, or the first conflict between two of their options. */
  ghost predicate AreSpellings(spellings: Spellings, specs: seq<CommandSpec>) {
    && Consistent(LongEntries(OptionsOf(specs))) && TellsValues(spellings.long, LongEntries(OptionsOf(specs)))
    && Consistent(ShortEntries(OptionsOf(specs))) && TellsValues(spellings.short, ShortEntries(OptionsOf(specs)))
  }

  ghost predicate SpecsConflict(conflict: Conflict, specs: seq<CommandSpec>) {
    IsConflict(conflict, LongEntries(OptionsOf(specs))) || IsConflict(conflict, ShortEntries(OptionsOf(specs)))
  }

  method RecordOption(long: Table, short: Table, option: OptionSpec, ghost done: seq<OptionSpec>)
    returns (r: Result<(Table, Table), Conflict>)
    requires Records(long, LongEntries(done)) && Records(short, ShortEntries(done))
    ensures r.Ok? ==> Records(r.value.0, LongEntries(done + [option]))
    ensures r.Ok? ==> Records(r.value.1, ShortEntries(done + [option]))
    ensures r.Err? ==> IsConflict(r.error, LongEntries(done + [option])) || IsConflict(r.error, ShortEntries(done + [option]))
  {
    EntriesGrow(done, option);
    var longer := Record(long, option.long, option.shape, LongEntries(done));
    if longer.Err? {
      return Err(longer.error);
    }
    if option.short.None? {
      return Ok((longer.value, short));
    }
    var shorter := Record(short, option.short.value, option.shape, ShortEntries(done));
    if shorter.Err? {
      return Err(shorter.error);
    }
    return Ok((longer.value, shorter.value));
  }

  method ValueOptionSpellings(specs: seq<CommandSpec>) returns (r: Result<Spellings, Conflict>)
    ensures r.Ok? ==> AreSpellings(r.value, specs)
    ensures r.Err? ==> SpecsConflict(r.error, specs)
  {
    var long, short := Table(map[], map[]), Table(map[], map[]);
    for i := 0 to |specs|
      invariant Records(long, LongEntries(OptionsOf(specs[..i])))
      invariant Records(short, ShortEntries(OptionsOf(specs[..i])))
    {
      var options := specs[i].options;
      ghost var done := OptionsOf(specs[..i]);
      OptionsGrow(specs, i);
      OptionsInAll(specs, i + 1);
      assert done + options[..0] == done;
      for j := 0 to |options|
        invariant Records(long, LongEntries(done + options[..j]))
        invariant Records(short, ShortEntries(done + options[..j]))
      {
        assert done + options[..j] + [options[j]] == done + options[..j + 1];
        var next := RecordOption(long, short, options[j], done + options[..j]);
        if next.Err? {
          ConflictGrows(next.error, done + options[..j + 1], OptionsOf(specs));
          return Err(next.error);
        }
        long, short := next.value.0, next.value.1;
      }
      assert done + options[..|options|] == OptionsOf(specs[..i + 1]);
    }
    assert specs[..|specs|] == specs;
    RecordedIsConsistent(long, LongEntries(OptionsOf(specs)));
    RecordedIsConsistent(short, ShortEntries(OptionsOf(specs)));
    return Ok(Spellings(long.values, short.values));
  }

  lemma SpecOptionsInAll(specs: seq<CommandSpec>, i: nat, option: OptionSpec)
    requires i < |specs| && option in OptionsOf([specs[i]])
    ensures option in OptionsOf(specs)
  {
    assert [specs[i]][..0] == [] && OptionsOf([specs[i]]) == specs[i].options;
    OptionsGrow(specs, i);
    OptionsInAll(specs, i + 1);
  }

  /** Once the spellings of all commands are checked together, no single command has a conflict. */
  lemma CheckedTogether(spellings: Spellings, specs: seq<CommandSpec>, i: nat, conflict: Conflict)
    requires AreSpellings(spellings, specs) && i < |specs|
    ensures !SpecsConflict(conflict, [specs[i]])
  {
    forall option | option in OptionsOf([specs[i]])
      ensures option in OptionsOf(specs)
    {
      SpecOptionsInAll(specs, i, option);
    }
    assert LongEntries(OptionsOf([specs[i]])) <= LongEntries(OptionsOf(specs));
    assert ShortEntries(OptionsOf([specs[i]])) <= ShortEntries(OptionsOf(specs));
  }

  /** A command's own table and the table of all commands give a spelling the same shape. */
  lemma TablesAgree(spellings: Spellings, specs: seq<CommandSpec>, i: nat, own: Spellings, spelling: string)
    requires AreSpellings(spellings, specs) && i < |specs| && AreSpellings(own, [specs[i]])
    ensures spelling in own.long ==> spelling in spellings.long && spellings.long[spelling] == own.long[spelling]
    ensures spelling in own.short ==> spelling in spellings.short && spellings.short[spelling] == own.short[spelling]
  {
    forall option | option in OptionsOf([specs[i]])
      ensures option in OptionsOf(specs)
    {
      SpecOptionsInAll(specs, i, option);
    }
    if spelling in own.long {
      assert Gives(own.long, Entry(spelling, own.long[spelling]));
      assert Gives(spellings.long, Entry(spelling, own.long[spelling]));
    }
    if spelling in own.short {
      assert Gives(own.short, Entry(spelling, own.short[spelling]));
      assert Gives(spellings.short, Entry(spelling, own.short[spelling]));
    }
  }

  ghost predicate DeclaresOption(specs: seq<CommandSpec>, option: OptionSpec) {
    exists i :: 0 <= i < |specs| && option in specs[i].options
  }

  lemma {:induction false} OptionsAreDeclared(specs: seq<CommandSpec>, option: OptionSpec)
    ensures option in OptionsOf(specs) <==> DeclaresOption(specs, option)
  {
    if specs != [] {
      var k := |specs| - 1;
      OptionsAreDeclared(specs[..k], option);
      if DeclaresOption(specs, option) && option !in specs[k].options {
        var i :| 0 <= i < |specs| && option in specs[i].options;
        assert specs[..k][i] == specs[i];
      }
    }
  }

  /** The recorded spellings: exactly those of the declared options that take a value, long and short. */
  lemma SpellingsTell(spellings: Spellings, specs: seq<CommandSpec>, spelling: string, shape: Shape)
    requires AreSpellings(spellings, specs)
    ensures spelling in spellings.long && spellings.long[spelling] == shape
       <==> shape != Boolean && exists option :: DeclaresOption(specs, option) && option.long == spelling && option.shape == shape
    ensures spelling in spellings.short && spellings.short[spelling] == shape
       <==> shape != Boolean && exists option :: DeclaresOption(specs, option) && option.short == Some(spelling) && option.shape == shape
  {
    forall option
      ensures option in OptionsOf(specs) <==> DeclaresOption(specs, option)
    {
      OptionsAreDeclared(specs, option);
    }
    assert Gives(spellings.long, Entry(spelling, shape)) <==> shape != Boolean && Entry(spelling, shape) in LongEntries(OptionsOf(specs));
    assert Gives(spellings.short, Entry(spelling, shape)) <==> shape != Boolean && Entry(spelling, shape) in ShortEntries(OptionsOf(specs));
  }

  /** A conflict: two declared options with the same spelling, long or short, and the two shapes. */
  lemma ConflictTells(conflict: Conflict, specs: seq<CommandSpec>)
    ensures SpecsConflict(conflict, specs)
       <==> && conflict.existing != conflict.shape
            && exists a, b :: DeclaresOption(specs, a) && DeclaresOption(specs, b)
                 && a.shape == conflict.existing && b.shape == conflict.shape
                 && (a.long == b.long == conflict.spelling || a.short == b.short == Some(conflict.spelling))
  {
    forall option
      ensures option in OptionsOf(specs) <==> DeclaresOption(specs, option)
    {
      OptionsAreDeclared(specs, option);
    }
    if IsConflict(conflict, LongEntries(OptionsOf(specs))) {
      var a :| a in OptionsOf(specs) && Entry(a.long, a.shape) == Entry(conflict.spelling, conflict.existing);
      var b :| b in OptionsOf(specs) && Entry(b.long, b.shape) == Entry(conflict.spelling, conflict.shape);
      assert DeclaresOption(specs, a) && DeclaresOption(specs, b);
    }
    if IsConflict(conflict, ShortEntries(OptionsOf(specs))) {
      var a :| a in OptionsOf(specs) && a.short == Some(conflict.spelling) && a.shape == conflict.existing;
      var b :| b in OptionsOf(specs) && b.short == Some(conflict.spelling) && b.shape == conflict.shape;
      assert DeclaresOption(specs, a) && DeclaresOption(specs, b);
    }
  }
}
