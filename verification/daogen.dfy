/**
 * The DAO code generator (cmd/dao-gen/main.go): its flag defaults, the list of files it
 * writes, `lowerFirst`, and the line-by-line parser of a `<Type>.definition` file. The
 * file is given as its lines (`None` when it cannot be opened or read); templates, file
 * creation and process exit are outside the model.
 */
module DaoGen {
  import opened Wrappers
  import opened GoStrings
  import opened Folds
  import opened SeqFacts

  /** The line that opens the domain-specific section of a definition file. */
  const MARKER: string := "Domain specific fields, starts"

  /** `FieldDefinition`: one parsed domain field. */
  datatype FieldDefinition = FieldDefinition(name: string, fieldType: string, tags: string, purpose: string)

  /** What a field line yields before the buffered comments are attached. */
  datatype FieldLine = FieldLine(name: string, fieldType: string, tags: string)

  /** The text between the first and the last backtick; empty with fewer than two. */
  function TagsOf(line: string): (r: string)
    ensures '`' !in line ==> r == ""
  {
    var start, end := IndexOf(line, '`'), LastIndexOf(line, '`');
    if start >= 0 && end > start then line[start + 1..end] else ""
  }

  /** Whatever surrounds the outermost pair of backticks, the tags are what lies between. */
  lemma TagsBetweenOutermost(before: string, tags: string, after: string)
    requires '`' !in before && '`' !in after
    ensures TagsOf(before + "`" + tags + "`" + after) == tags
  {
    var line := before + "`" + tags + "`" + after;
    var i, j := |before|, |before| + 1 + |tags|;
    OuterBackticks(before, tags, after);
    IndexOfAt(line, '`', i);
    LastIndexOfAt(line, '`', j);
  }

  /** Where the pieces of `before`, a backtick, `tags`, a backtick and `after` sit. */
  lemma OuterBackticks(before: string, tags: string, after: string)
    ensures var line, i, j := before + "`" + tags + "`" + after, |before|, |before| + 1 + |tags|;
      && j < |line| && line[i] == '`' && line[j] == '`'
      && line[..i] == before && line[i + 1..j] == tags && line[j + 1..] == after
  {
    var line, i, j := before + "`" + tags + "`" + after, |before|, |before| + 1 + |tags|;
    assert line == before + ("`" + tags + "`" + after);
    assert line[..i] == before;
    assert line[j + 1..] == after;
    assert line[i + 1..j] == tags;
  }

  /** A single backtick opens no tags. */
  lemma OneBacktickNoTags(before: string, after: string)
    requires '`' !in before && '`' !in after
    ensures TagsOf(before + "`" + after) == ""
  {
    var line := before + "`" + after;
    var i := |before|;
    assert line[..i] == before && line[i + 1..] == after;
    IndexOfAt(line, '`', i);
    LastIndexOfAt(line, '`', i);
  }

  /**
   * The field part of a line that is neither blank nor a comment: the tags, then the
   * fields before the first backtick — the first is the name, the others joined by
   * single spaces the type. `None` when there are fewer than two such fields.
   */
  function ParseField(line: string): (r: Option<FieldLine>)
    ensures r.Some? ==> r.value.tags == TagsOf(line) && r.value.name != [] && NoSpace(r.value.name)
  {
    var start := IndexOf(line, '`');
    var def := if start >= 0 then TrimSpace(line[..start]) else line;
    var parts := Fields(def);
    if |parts| >= 2 then
      Some(FieldLine(TrimSpace(parts[0]), TrimSpace(Join(parts[1..], " ")), TagsOf(line)))
    else
      None
  }

  /** Name, type and tags come back from the line the generator's input format describes. */
  lemma ParseFieldRoundTrip(name: string, typeWords: seq<string>, tags: string)
    requires name != [] && NoSpace(name) && '`' !in name
    requires typeWords != []
    requires forall i | 0 <= i < |typeWords| :: typeWords[i] != [] && NoSpace(typeWords[i]) && '`' !in typeWords[i]
    requires '`' !in tags
    ensures ParseField(name + " " + Join(typeWords, " ") + " `" + tags + "`")
      == Some(FieldLine(name, Join(typeWords, " "), tags))
  {
    var head := name + " " + Join(typeWords, " ");
    assert '`' !in head by {
      BacktickFreeJoin(typeWords);
    }
    DefinitionPart(name, typeWords);
    TaggedParse(head, tags, name, Join(typeWords, " "));
  }

  /** A line made of a backtick-free head, a space and the tags parses into the head's fields. */
  lemma TaggedParse(head: string, tags: string, name: string, typ: string)
    requires '`' !in head && '`' !in tags
    requires var parts := Fields(TrimSpace(head + [' ']));
      && |parts| >= 2 && TrimSpace(parts[0]) == name && TrimSpace(Join(parts[1..], " ")) == typ
    ensures ParseField(head + " `" + tags + "`") == Some(FieldLine(name, typ, tags))
  {
    TagPart(head, tags);
    ParseFieldAt(head + " `" + tags + "`", |head| + 1, head + [' '], Fields(TrimSpace(head + [' '])));
  }

  /** What `ParseField` returns once the first backtick and the fields before it are known. */
  lemma ParseFieldAt(line: string, start: nat, def: string, parts: seq<string>)
    requires IndexOf(line, '`') == start && start <= |line| && line[..start] == def
    requires parts == Fields(TrimSpace(def)) && |parts| >= 2
    ensures ParseField(line) == Some(FieldLine(TrimSpace(parts[0]), TrimSpace(Join(parts[1..], " ")), TagsOf(line)))
  {
  }

  /** The backtick after `head` and a space is the first one, and the tags follow it. */
  lemma TagPart(head: string, tags: string)
    requires '`' !in head && '`' !in tags
    ensures var line := head + " `" + tags + "`";
      && IndexOf(line, '`') == |head| + 1
      && line[..|head| + 1] == head + [' ']
      && TagsOf(line) == tags
  {
    var line, before := head + " `" + tags + "`", head + " ";
    TaggedLine(head, tags);
    TagsBetweenOutermost(before, tags, "");
    IndexOfAt(line, '`', |before|);
  }

  /** The text before the tags splits back into the name and the type's words. */
  lemma DefinitionPart(name: string, typeWords: seq<string>)
    requires name != [] && NoSpace(name)
    requires typeWords != []
    requires forall i | 0 <= i < |typeWords| :: typeWords[i] != [] && NoSpace(typeWords[i])
    ensures var parts := Fields(TrimSpace((name + " " + Join(typeWords, " ")) + [' ']));
      && |parts| >= 2
      && TrimSpace(parts[0]) == name
      && TrimSpace(Join(parts[1..], " ")) == Join(typeWords, " ")
  {
    var head := name + " " + Join(typeWords, " ");
    var words := [name] + typeWords;
    JoinCons(name, typeWords, " ");
    assert forall i | 0 <= i < |words| :: words[i] != [] && NoSpace(words[i]) by {
      assert forall i | 1 <= i < |words| :: words[i] == typeWords[i - 1];
    }
    JoinWordsTrimmed(words);
    TrimSpaceSkipsTrailingSpace(head, ' ');
    FieldsOfJoin(words);
    assert words[0] == name && words[1..] == typeWords;
    TrimSpaceOfTrimmed(name);
    JoinWordsTrimmed(typeWords);
  }

  /** Words without backticks joined by spaces have no backtick. */
  lemma {:induction false} BacktickFreeJoin(ws: seq<string>)
    requires forall i | 0 <= i < |ws| :: '`' !in ws[i]
    ensures '`' !in Join(ws, " ")
    decreases |ws|
  {
    if |ws| > 1 {
      BacktickFreeJoin(ws[1..]);
    }
  }

  /** The parser's state between lines. */
  datatype Parser = Parser(
    inDomain: bool,
    fieldLines: seq<string>,
    defs: seq<FieldDefinition>,
    comments: seq<string>)

  /** The state before the first line. */
  const START: Parser := Parser(false, [], [], [])

  /** Whether a line is (or contains, once trimmed) the section marker. */
  predicate IsMarker(line: string) {
    Contains(TrimSpace(line), MARKER)
  }

  /** A comment line's text: the trimmed line after `//`, trimmed again. */
  function CommentText(trimmed: string): string {
    TrimSpace(TrimPrefix(trimmed, "//"))
  }

  /** A line inside the section that is neither blank nor a comment. */
  function FieldStep(p: Parser, line: string): (r: Parser)
    ensures r.fieldLines == p.fieldLines + [line] && r.inDomain == p.inDomain
    ensures p.defs <= r.defs && |r.defs| <= |p.defs| + 1
  {
    match ParseField(line)
    case Some(f) =>
      if f.name != "" && !HasPrefix(f.name, "//") then
        var d := FieldDefinition(f.name, f.fieldType, f.tags, Join(p.comments, " "));
        p.(fieldLines := p.fieldLines + [line], defs := p.defs + [d], comments := [])
      else
        p.(fieldLines := p.fieldLines + [line])
    case None =>
      p.(fieldLines := p.fieldLines + [line])
  }

  /** A non-marker line inside the section: copied verbatim, then blank, comment or field. */
  function SectionStep(p: Parser, line: string): (r: Parser)
    ensures r.fieldLines == p.fieldLines + [line] && r.inDomain == p.inDomain
    ensures p.defs <= r.defs && |r.defs| <= |p.defs| + 1
  {
    var trimmed := TrimSpace(line);
    if trimmed == "" then
      p.(fieldLines := p.fieldLines + [line], comments := [])
    else if HasPrefix(trimmed, "//") then
      var text := CommentText(trimmed);
      p.(fieldLines := p.fieldLines + [line], comments := if text != "" then p.comments + [text] else p.comments)
    else
      FieldStep(p, line)
  }

  /**
   * One iteration of the scanning loop of `readDefinitionFile`: a marker line opens the
   * section and is itself dropped, lines before it are skipped, the others go to
   * `SectionStep`.
   */
  function Step(p: Parser, line: string): Parser {
    if IsMarker(line) then p.(inDomain := true)
    else if !p.inDomain then p
    else SectionStep(p, line)
  }

  /**
   * A marker only opens the section; outside it other lines change nothing; inside it
   * they are copied; at most one definition is appended and earlier ones are kept.
   */
  lemma StepFacts(p: Parser, line: string)
    ensures IsMarker(line) ==> Step(p, line) == p.(inDomain := true)
    ensures !IsMarker(line) && !p.inDomain ==> Step(p, line) == p
    ensures !IsMarker(line) && p.inDomain ==> Step(p, line).inDomain && Step(p, line).fieldLines == p.fieldLines + [line]
    ensures p.defs <= Step(p, line).defs && |Step(p, line).defs| <= |p.defs| + 1
  {
  }

  /** The loop over all lines, from state `p`. */
  function Run(p: Parser, lines: seq<string>): Parser {
    Fold(Step, p, lines)
  }

  /** Running over two parts is running over the first, then the second. */
  lemma RunAppend(p: Parser, a: seq<string>, b: seq<string>)
    ensures Run(p, a + b) == Run(Run(p, a), b)
  {
    FoldAppend(Step, p, a, b);
  }

  /** Before the marker nothing is recorded. */
  lemma {:induction false} NothingBeforeMarker(lines: seq<string>)
    requires forall i | 0 <= i < |lines| :: !IsMarker(lines[i])
    ensures Run(START, lines) == START
    decreases |lines|
  {
    if lines != [] {
      NothingBeforeMarker(lines[..|lines| - 1]);
      StepFacts(START, lines[|lines| - 1]);
    }
  }

  /**
   * Lines up to and including the first marker produce nothing: parsing the file is
   * parsing what follows from an empty state inside the section.
   */
  lemma SectionStartsAfterMarker(before: seq<string>, marker: string, after: seq<string>)
    requires forall i | 0 <= i < |before| :: !IsMarker(before[i])
    requires IsMarker(marker)
    ensures Run(START, before + [marker] + after) == Run(START.(inDomain := true), after)
  {
    NothingBeforeMarker(before);
    RunAppend(START, before, [marker]);
    assert Run(START, [marker]) == START.(inDomain := true) by {
      assert [marker][..0] == [];
      StepFacts(START, marker);
    }
    RunAppend(START, before + [marker], after);
  }

  /** The lines other than markers, in order. */
  function NonMarkers(lines: seq<string>): (r: seq<string>)
    ensures |r| <= |lines|
    decreases |lines|
  {
    if lines == [] then []
    else
      var init := NonMarkers(lines[..|lines| - 1]);
      if IsMarker(lines[|lines| - 1]) then init else init + [lines[|lines| - 1]]
  }

  /** Inside the section every line but a marker is copied verbatim, whatever it holds. */
  lemma {:induction false} SectionLinesCopied(p: Parser, lines: seq<string>)
    requires p.inDomain
    ensures Run(p, lines).inDomain
    ensures Run(p, lines).fieldLines == p.fieldLines + NonMarkers(lines)
    decreases |lines|
  {
    if lines != [] {
      var init, last := lines[..|lines| - 1], lines[|lines| - 1];
      SectionLinesCopied(p, init);
      var q := Run(p, init);
      assert Run(p, lines) == Step(q, last);
      StepFacts(q, last);
      var r, pre := Step(q, last), p.fieldLines + NonMarkers(init);
      assert q.fieldLines == pre;
      if IsMarker(last) {
        assert NonMarkers(lines) == NonMarkers(init);
        assert r.fieldLines == pre;
      } else {
        assert NonMarkers(lines) == NonMarkers(init) + [last];
        assert r.fieldLines == pre + [last];
        AppendAssoc(p.fieldLines, NonMarkers(init), [last]);
      }
    }
  }

  /** Without markers, the lines other than markers are all the lines. */
  lemma {:induction false} NoMarkersKept(lines: seq<string>)
    requires forall i | 0 <= i < |lines| :: !IsMarker(lines[i])
    ensures NonMarkers(lines) == lines
    decreases |lines|
  {
    if lines != [] {
      NoMarkersKept(lines[..|lines| - 1]);
      InitLast(lines);
    }
  }

  /**
   * The `fields` text of a file with one marker is the lines after it, verbatim and
   * joined by newlines; the lines before it are ignored.
   */
  lemma SectionIsCopied(before: seq<string>, marker: string, after: seq<string>)
    requires forall i | 0 <= i < |before| :: !IsMarker(before[i])
    requires IsMarker(marker)
    requires forall i | 0 <= i < |after| :: !IsMarker(after[i])
    ensures ReadDefinitionFile(Some(before + [marker] + after)).fields == Join(after, "\n")
  {
    var lines := before + [marker] + after;
    SectionStartsAfterMarker(before, marker, after);
    SectionLinesCopied(START.(inDomain := true), after);
    NoMarkersKept(after);
    assert Run(START, lines).fieldLines == after by {
      assert [] + after == after;
    }
    FieldsText(lines);
  }

  /** The `fields` text is the copied lines joined by newlines. */
  lemma FieldsText(lines: seq<string>)
    ensures ReadDefinitionFile(Some(lines)).fields == Join(Run(START, lines).fieldLines, "\n")
    ensures ReadDefinitionFile(Some(lines)).fieldDefs == Run(START, lines).defs
  {
  }

  /** A blank line inside the section empties the comment buffer and records no field. */
  lemma BlankResetsComments(p: Parser, line: string)
    requires p.inDomain && TrimSpace(line) == ""
    ensures Step(p, line) == p.(fieldLines := p.fieldLines + [line], comments := [])
  {
    assert !Contains(TrimSpace(line), MARKER);
  }

  /** A comment line inside the section buffers its non-empty text and records no field. */
  lemma CommentBuffered(p: Parser, line: string)
    requires p.inDomain && !IsMarker(line)
    requires HasPrefix(TrimSpace(line), "//")
    ensures Step(p, line).defs == p.defs
    ensures Step(p, line).fieldLines == p.fieldLines + [line]
    ensures CommentText(TrimSpace(line)) != "" ==> Step(p, line).comments == p.comments + [CommentText(TrimSpace(line))]
    ensures CommentText(TrimSpace(line)) == "" ==> Step(p, line).comments == p.comments
  {
  }

  /**
   * The `fieldName != ""` and not-a-comment guards never fail: a line that reaches the
   * field parser has a first field that is non-empty and does not start with `//`.
   */
  lemma FieldGuardRedundant(line: string)
    requires !HasPrefix(TrimSpace(line), "//")
    requires ParseField(line).Some?
    ensures ParseField(line).value.name != "" && !HasPrefix(ParseField(line).value.name, "//")
  {
    var start := IndexOf(line, '`');
    var def := if start >= 0 then TrimSpace(line[..start]) else line;
    TrimSpaceOfTrimmed(Fields(def)[0]);
    if HasPrefix(Fields(def)[0], "//") {
      SlashedFieldSlashedLine(line, start);
    }
  }

  /** A first field that starts with `//` means the trimmed line does. */
  lemma SlashedFieldSlashedLine(line: string, start: int)
    requires start < |line|
    requires var def := if start >= 0 then TrimSpace(line[..start]) else line;
      Fields(def) != [] && HasPrefix(Fields(def)[0], "//")
    ensures HasPrefix(TrimSpace(line), "//")
  {
    var def := if start >= 0 then TrimSpace(line[..start]) else line;
    FirstFieldStartsTrimmed(def);
    var slashes: string := "//";
    assert slashes <= TrimLeft(def);
    if start >= 0 {
      TrimmedHeadPrefix(line, start, slashes);
    }
    TrimSpaceKeepsPrefix(line, slashes);
  }

  /** What the trimmed text before position `k` starts with, the left-trimmed line starts with. */
  lemma TrimmedHeadPrefix(line: string, k: nat, p: string)
    requires k <= |line| && p != []
    requires p <= TrimLeft(TrimSpace(line[..k]))
    ensures p <= TrimLeft(line)
  {
    var head := line[..k];
    TrimSpaceStartsTrimLeft(head);
    TrimLeftPrefix(head, line[k..]);
    SplitAt(line, k);
    PrefixTrans(p, TrimSpace(head), TrimLeft(head), line[k..]);
  }

  /** A field line inside the section records one definition carrying the buffered comments. */
  lemma FieldRecorded(p: Parser, line: string)
    requires p.inDomain && !IsMarker(line)
    requires TrimSpace(line) != "" && !HasPrefix(TrimSpace(line), "//")
    ensures ParseField(line).Some? ==>
      var f := ParseField(line).value;
      && Step(p, line).defs == p.defs + [FieldDefinition(f.name, f.fieldType, f.tags, Join(p.comments, " "))]
      && Step(p, line).comments == []
    ensures ParseField(line).None? ==> Step(p, line) == p.(fieldLines := p.fieldLines + [line])
  {
    if ParseField(line).Some? {
      FieldGuardRedundant(line);
    }
  }

  /** `fieldNames`' line for one field. */
  function NameLine(name: string): string {
    "\t" + name + " entities.Field\n"
  }

  /** `fieldInits`' line for one field. */
  function InitLine(name: string): string {
    "\t" + name + ": \"" + name + "\","
  }

  /** The concatenation of `parts` (what a `strings.Builder` accumulates). */
  function Concat(parts: seq<string>): (r: string)
    ensures parts != [] && parts[0] != "" ==> r != ""
  {
    if parts == [] then "" else parts[0] + Concat(parts[1..])
  }

  /** `readDefinitionFile`'s four results. */
  datatype Definition = Definition(
    fields: string,
    fieldNames: string,
    fieldInits: string,
    fieldDefs: seq<FieldDefinition>)

  /** The names of the parsed fields, in order. */
  function Names(defs: seq<FieldDefinition>): (r: seq<string>)
    ensures |r| == |defs|
    ensures forall i | 0 <= i < |defs| :: r[i] == defs[i].name
  {
    seq(|defs|, i requires 0 <= i < |defs| => defs[i].name)
  }

  /** One `NameLine` per name, in order. */
  function NameLines(names: seq<string>): (r: seq<string>)
    ensures |r| == |names|
    ensures forall i | 0 <= i < |names| :: r[i] == NameLine(names[i])
  {
    seq(|names|, i requires 0 <= i < |names| => NameLine(names[i]))
  }

  /** One `InitLine` per name, in order. */
  function InitLines(names: seq<string>): (r: seq<string>)
    ensures |r| == |names|
    ensures forall i | 0 <= i < |names| :: r[i] == InitLine(names[i])
  {
    seq(|names|, i requires 0 <= i < |names| => InitLine(names[i]))
  }

  /**
   * `readDefinitionFile`: the section's lines joined by newlines, the names and inits
   * text, and the definitions; all empty when the file cannot be read.
   */
  function ReadDefinitionFile(file: Option<seq<string>>): (r: Definition)
    ensures file.None? ==> r == Definition("", "", "", [])
  {
    match file
    case None => Definition("", "", "", [])
    case Some(lines) =>
      var p := Run(START, lines);
      var names := Names(p.defs);
      if |names| > 0 then
        Definition(
          Join(p.fieldLines, "\n"),
          Concat(NameLines(names)),
          Join(InitLines(names), "\n"),
          p.defs)
      else
        Definition(Join(p.fieldLines, "\n"), "", "", p.defs)
  }

  /** The names and inits texts are empty exactly when no field was parsed. */
  lemma NamesEmptyIffNoFields(lines: seq<string>)
    ensures var r := ReadDefinitionFile(Some(lines));
      && (r.fieldNames == "" <==> r.fieldDefs == [])
      && (r.fieldInits == "" <==> r.fieldDefs == [])
  {
    var r := ReadDefinitionFile(Some(lines));
    var names := Names(r.fieldDefs);
    if names != [] {
      var inits := InitLines(names);
      if |inits| > 1 {
        assert Join(inits, "\n") == inits[0] + "\n" + Join(inits[1..], "\n");
      }
    }
  }

  /** `lowerFirst`: the first rune lower-cased, the others kept. */
  function LowerFirst(s: string): (r: string)
    ensures |r| == |s|
    ensures s != "" ==> r[0] == ToLowerRune(s[0]) && r[1..] == s[1..]
  {
    if s == "" then s else [ToLowerRune(s[0])] + s[1..]
  }

  /** Lower-casing the first rune twice changes nothing more; a lower-case start is kept. */
  lemma LowerFirstIdempotent(s: string)
    ensures LowerFirst(LowerFirst(s)) == LowerFirst(s)
    ensures s != "" && !('A' <= s[0] <= 'Z') ==> LowerFirst(s) == s
  {
  }

  /** The command-line flags. */
  datatype Config = Config(
    outDir: string,
    package: string,
    typeName: string,
    tableName: string,
    namespace: string,
    force: bool,
    withWorker: bool,
    withImpex: bool,
    withDebug: bool)

  /** The flag values before parsing. */
  const FLAG_DEFAULTS: Config := Config(".", "", "", "", "", false, true, true, true)

  /** Why the generator exits before generating. */
  datatype ConfigError = PackageRequired | TypeRequired

  /** The checks and defaults `main` applies after parsing the flags. */
  function Configure(flags: Config): (r: Result<Config, ConfigError>)
    ensures flags.package == "" <==> r == Failure(PackageRequired)
    ensures r.Failure? && flags.package != "" ==> flags.typeName == "" && r.error == TypeRequired
    ensures r.Success? ==> r.value.tableName != "" && r.value.namespace != ""
  {
    if flags.package == "" then Failure(PackageRequired)
    else if flags.typeName == "" then Failure(TypeRequired)
    else
      Success(flags.(
        tableName := if flags.tableName == "" then flags.typeName else flags.tableName,
        namespace := if flags.namespace == "" then "main" else flags.namespace))
  }

  /** The table defaults to the type name and the namespace to `main`; given values are kept. */
  lemma ConfigureDefaults(flags: Config)
    requires flags.package != "" && flags.typeName != ""
    ensures Configure(flags).Success?
    ensures var c := Configure(flags).value;
      && c.tableName == (if flags.tableName == "" then flags.typeName else flags.tableName)
      && c.namespace == (if flags.namespace == "" then "main" else flags.namespace)
      && c.(tableName := flags.tableName, namespace := flags.namespace) == flags
  {
  }

  /** One entry of `main`'s file table: template, output name, whether it is generated. */
  datatype OutputFile = OutputFile(template: string, outName: string, enabled: bool)

  /** `main`'s file table, in order. */
  function FileTable(c: Config): (r: seq<OutputFile>)
    ensures |r| == 10
  {
    var base := LowerFirst(c.typeName);
    [ OutputFile("model.tmpl", base + "Model.go", true),
      OutputFile("db.tmpl", base + "DB.go", true),
      OutputFile("cache.tmpl", base + "Cache.go", true),
      OutputFile("dao.tmpl", base + ".go", true),
      OutputFile("internals.tmpl", base + "Internals.go", true),
      OutputFile("helpers.tmpl", base + "Helpers.go", true),
      OutputFile("worker.tmpl", base + "Worker.go", c.withWorker),
      OutputFile("impex.tmpl", base + "Impex.go", c.withImpex),
      OutputFile("debug.tmpl", base + "Debug.go", c.withDebug),
      OutputFile("readme.tmpl", "README.md", true) ]
  }

  /** The enabled entries of a file table, in order. */
  function Enabled(files: seq<OutputFile>): (r: seq<string>)
    ensures |r| <= |files|
  {
    if files == [] then []
    else (if files[0].enabled then [files[0].outName] else []) + Enabled(files[1..])
  }

  /** The output name of an entry that is generated, as a sequence of zero or one names. */
  function IfEnabled(f: OutputFile): seq<string> {
    if f.enabled then [f.outName] else []
  }

  /** Skipping the first `k` entries, the `k`-th decides the next name. */
  lemma EnabledAt(files: seq<OutputFile>, k: nat)
    requires k < |files|
    ensures Enabled(files[k..]) == IfEnabled(files[k]) + Enabled(files[k + 1..])
  {
    assert files[k..][1..] == files[k + 1..];
  }

  /** The output names `main` generates, in order. */
  function GeneratedFiles(c: Config): seq<string> {
    Enabled(FileTable(c))
  }

  /** The names in table order: the six core files, the three optional ones, README.md. */
  lemma GeneratedFilesInOrder(c: Config)
    ensures var base := LowerFirst(c.typeName);
      GeneratedFiles(c)
        == [base + "Model.go", base + "DB.go", base + "Cache.go", base + ".go", base + "Internals.go", base + "Helpers.go"]
         + (if c.withWorker then [base + "Worker.go"] else [])
         + (if c.withImpex then [base + "Impex.go"] else [])
         + (if c.withDebug then [base + "Debug.go"] else [])
         + ["README.md"]
  {
    EnabledOfTen(FileTable(c));
  }

  /** A ten-entry table whose first six and last entries are always on. */
  lemma EnabledOfTen(t: seq<OutputFile>)
    requires |t| == 10
    requires t[0].enabled && t[1].enabled && t[2].enabled && t[3].enabled && t[4].enabled && t[5].enabled && t[9].enabled
    ensures Enabled(t)
      == [t[0].outName, t[1].outName, t[2].outName, t[3].outName, t[4].outName, t[5].outName]
       + IfEnabled(t[6]) + IfEnabled(t[7]) + IfEnabled(t[8]) + [t[9].outName]
  {
    EnabledTail(t);
    assert t[0..] == t;
    EnabledAt(t, 0); EnabledAt(t, 1); EnabledAt(t, 2); EnabledAt(t, 3); EnabledAt(t, 4); EnabledAt(t, 5);
    var tail := Enabled(t[6..]);
    assert Enabled(t) == [t[0].outName] + ([t[1].outName] + ([t[2].outName] + ([t[3].outName] + ([t[4].outName] + ([t[5].outName] + tail)))));
    AppendAssoc([t[0].outName, t[1].outName, t[2].outName, t[3].outName, t[4].outName, t[5].outName],
      IfEnabled(t[6]) + IfEnabled(t[7]) + IfEnabled(t[8]), [t[9].outName]);
  }

  /** The last four entries of a ten-entry table, the last one always on. */
  lemma EnabledTail(t: seq<OutputFile>)
    requires |t| == 10 && t[9].enabled
    ensures Enabled(t[6..]) == IfEnabled(t[6]) + IfEnabled(t[7]) + IfEnabled(t[8]) + [t[9].outName]
  {
    EnabledAt(t, 6); EnabledAt(t, 7); EnabledAt(t, 8); EnabledAt(t, 9);
    assert t[10..] == [];
    var a, b, c, d := IfEnabled(t[6]), IfEnabled(t[7]), IfEnabled(t[8]), [t[9].outName];
    assert Enabled(t[6..]) == a + (b + (c + (d + [])));
    AppendSlices(d, []);
    AppendAssoc(b, c, d);
    AppendAssoc(a, b + c, d);
    AppendAssoc(a, b, c);
  }

  /**
   * Model, DB, Cache, the plain `.go` file, Internals, Helpers and README.md are always
   * generated; Worker, Impex and Debug exactly when enabled.
   */
  lemma GeneratedFileSet(c: Config)
    ensures var base := LowerFirst(c.typeName); var g := GeneratedFiles(c);
      && |g| == 7 + (if c.withWorker then 1 else 0) + (if c.withImpex then 1 else 0) + (if c.withDebug then 1 else 0)
      && g[..6] == [base + "Model.go", base + "DB.go", base + "Cache.go", base + ".go", base + "Internals.go", base + "Helpers.go"]
      && g[|g| - 1] == "README.md"
      && (base + "Worker.go" in g <==> c.withWorker)
      && (base + "Impex.go" in g <==> c.withImpex)
      && (base + "Debug.go" in g <==> c.withDebug)
  {
    GeneratedFilesInOrder(c);
    SuffixesDiffer(LowerFirst(c.typeName));
  }

  /** The generated names differ from one another. */
  lemma SuffixesDiffer(base: string)
    ensures base + "Worker.go" !in [base + "Model.go", base + "DB.go", base + "Cache.go", base + ".go", base + "Internals.go", base + "Helpers.go", base + "Impex.go", base + "Debug.go"]
    ensures base + "Impex.go" !in [base + "Model.go", base + "DB.go", base + "Cache.go", base + ".go", base + "Internals.go", base + "Helpers.go", base + "Worker.go", base + "Debug.go"]
    ensures base + "Debug.go" !in [base + "Model.go", base + "DB.go", base + "Cache.go", base + ".go", base + "Internals.go", base + "Helpers.go", base + "Worker.go", base + "Impex.go"]
    ensures base + "Worker.go" != "README.md" && base + "Impex.go" != "README.md" && base + "Debug.go" != "README.md"
  {
    var w, i, d := base + "Worker.go", base + "Impex.go", base + "Debug.go";
    assert w[|base|] == 'W' && i[|base|] == 'I' && d[|base|] == 'D';
    assert (base + "Model.go")[|base|] == 'M' && (base + "DB.go")[|base|] == 'D' && (base + "DB.go")[|base| + 1] == 'B';
    assert d[|base| + 1] == 'e';
    assert (base + "Cache.go")[|base|] == 'C' && (base + ".go")[|base|] == '.';
    assert (base + "Internals.go")[|base|] == 'I' && (base + "Internals.go")[|base| + 1] == 'n';
    assert i[|base| + 1] == 'm';
    assert (base + "Helpers.go")[|base|] == 'H';
    assert |w| == |base| + 9 && |"README.md"| == 9;
    assert |i| == |base| + 8 && |d| == |base| + 8;
    if |base| == 0 {
      assert w[0] != 'R' && i[0] != 'R' && d[0] != 'R';
    }
  }

  /**
   * The generation loop: each enabled file is written in order; without `-force` the
   * first one that already exists stops the run (`exitf`), after the earlier ones were
   * written. Returns the names written and the one refused, if any.
   */
  function Generate(c: Config, existing: set<string>): (r: (seq<string>, Option<string>))
    ensures r.0 <= GeneratedFiles(c)
    ensures r.1.None? ==> r.0 == GeneratedFiles(c)
    ensures r.1.Some? ==> !c.force && r.1.value in existing && r.1.value in GeneratedFiles(c)
    ensures c.force ==> r == (GeneratedFiles(c), None)
  {
    WriteAll(GeneratedFiles(c), c.force, existing)
  }

  /** Writes `names` in order, refusing the first existing one unless `force`. */
  function WriteAll(names: seq<string>, force: bool, existing: set<string>): (r: (seq<string>, Option<string>))
    ensures r.0 <= names
    ensures r.1.None? ==> r.0 == names
    ensures r.1.Some? ==> !force && r.1.value in existing && r.1.value in names
    ensures r.1.Some? ==> |r.0| < |names| && names[|r.0|] == r.1.value
    ensures forall i | 0 <= i < |r.0| :: force || r.0[i] !in existing
    ensures force ==> r == (names, None)
  {
    if names == [] then ([], None)
    else if !force && names[0] in existing then ([], Some(names[0]))
    else
      var rest := WriteAll(names[1..], force, existing);
      ([names[0]] + rest.0, rest.1)
  }
}
