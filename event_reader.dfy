/** The line-based event source: each line of a training file holds an address and a
    flag separated by a tab, and becomes one training event. */
module LineEventReader {
  import opened Strings
  import opened ContextGenerator
  import opened TrainingEvents

  /** A cursor over the lines of a training file, read one line at a time. */
  class LineReader {
    const lines: seq<string>
    var position: nat

    predicate Valid()
      reads this
    {
      position <= |lines|
    }

    constructor (lines: seq<string>)
      ensures Valid()
      ensures this.lines == lines && position == 0
    {
      this.lines := lines;
      position := 0;
    }

    /** Some line is left to read. */
    method HasNext() returns (more: bool)
      requires Valid()
      ensures more <==> position < |lines|
    {
      more := position < |lines|;
    }

    /** The next line; the cursor moves past it. */
    method NextToken() returns (line: string)
      requires Valid() && position < |lines|
      modifies this
      ensures Valid()
      ensures line == lines[old(position)] && position == old(position) + 1
    {
      line := lines[position];
      position := position + 1;
    }
  }

  // ---------------------------------------------------------------------------
  // Parsing one line

  /** The first tab-separated field: the text before the first tab, or the whole line. */
  function EmailField(line: string): string
  {
    Split(line, '\t')[0]
  }

  /** The last tab-separated field: the text after the last tab, or the whole line. */
  function FlagField(line: string): string
  {
    Last(Split(line, '\t'))
  }

  /** A line marks an invalid address exactly when its last field is "1". */
  predicate IsInvalidFlag(line: string)
  {
    FlagField(line) == "1"
  }

  /** The event of one line: the flag gives the outcome, the first field the address. */
  function LineEvent(generator: Generator, line: string): Result<TrainingEvent>
  {
    EventOf(generator, OutcomeLabel(IsInvalidFlag(line)), EmailField(line))
  }

  /** The results of the lines, one per line, in order. */
  function LineResults(generator: Generator, lines: seq<string>): seq<Result<TrainingEvent>>
  {
    MapWith(LineEvent, generator, lines)
  }

  /** The events of the lines in order, or the failure of the first line whose context
      cannot be computed. */
  function LineEvents(generator: Generator, lines: seq<string>): Result<seq<TrainingEvent>>
  {
    Collect(LineResults(generator, lines))
  }

  /** The line a training file holds for an example: the address, a tab, and "1" for
      an invalid address or "0" for a valid one. */
  function FormatLine(x: EmailAndValidity): string
  {
    x.email + "\t" + (if x.isInvalid then "1" else "0")
  }

  /** The lines of a training file holding the examples. */
  function FormatLines(xs: seq<EmailAndValidity>): seq<string>
  {
    if xs == [] then [] else FormatLines(xs[..|xs| - 1]) + [FormatLine(Last(xs))]
  }

  // ---------------------------------------------------------------------------
  // The event reader

  /** Turns the lines of a reader into training events, one line per event. */
  class EventReader {
    const dataReader: LineReader
    const contextGenerator: Generator

    /** A reader over `dataReader` that uses the extractor's context. */
    constructor (dataReader: LineReader)
      ensures this.dataReader == dataReader && contextGenerator == DefaultContext
    {
      this.dataReader := dataReader;
      contextGenerator := DefaultContext;
    }

    /** A reader over `dataReader` that uses `contextGenerator`. */
    constructor WithGenerator(dataReader: LineReader, contextGenerator: Generator)
      ensures this.dataReader == dataReader && this.contextGenerator == contextGenerator
    {
      this.dataReader := dataReader;
      this.contextGenerator := contextGenerator;
    }

    /** The event of the next line. The line is consumed even when its context cannot
        be computed. */
    method ReadNextEvent() returns (event: Result<TrainingEvent>)
      requires dataReader.Valid() && dataReader.position < |dataReader.lines|
      modifies dataReader
      ensures dataReader.Valid()
      ensures dataReader.position == old(dataReader.position) + 1
      ensures event == LineEvent(contextGenerator, dataReader.lines[old(dataReader.position)])
    {
      var nextToken := dataReader.NextToken();
      var parts := Split(nextToken, '\t');
      var isInvalid := Last(parts) == "1";
      var outcome := if isInvalid then "INV" else "OK";
      var email := parts[0];
      var context := contextGenerator(email);
      if context.Err? {
        return Err(context.error);
      }
      event := Ok(TrainingEvent(outcome, context.value));
    }

    /** Exactly the line reader's answer. */
    method HasNext() returns (more: bool)
      requires dataReader.Valid()
      ensures more <==> dataReader.position < |dataReader.lines|
    {
      more := dataReader.HasNext();
    }
  }

  /** What a trainer gets by reading from line `start` until the first failure or the
      end, when that leaves the reader at `position`: the events of the remaining lines
      in order, or the first failure. On success every line is consumed; on failure the
      reader is just past the failing line, and the lines before it all gave events. */
  ghost predicate DrainedAt(generator: Generator, lines: seq<string>, start: nat, position: nat, events: Result<seq<TrainingEvent>>)
  {
    && start <= position <= |lines|
    && events == LineEvents(generator, lines[start..])
    && (events.Ok? ==> position == |lines|)
    && (events.Err? ==>
      && start < position
      && LineEvents(generator, lines[start..position - 1]).Ok?
      && LineEvents(generator, lines[start..position]).Err?)
  }

  /** Reads events until the line reader has no line left, as a trainer consumes the
      reader. */
  method ReadAllLineEvents(reader: EventReader) returns (events: Result<seq<TrainingEvent>>)
    requires reader.dataReader.Valid()
    modifies reader.dataReader
    ensures reader.dataReader.Valid()
    ensures DrainedAt(reader.contextGenerator, reader.dataReader.lines, old(reader.dataReader.position), reader.dataReader.position, events)
  {
    var dataReader := reader.dataReader;
    ghost var generator := reader.contextGenerator;
    ghost var lines := dataReader.lines;
    ghost var start := dataReader.position;
    var read: seq<TrainingEvent> := [];
    var more := reader.HasNext();
    while more
      invariant dataReader.Valid() && start <= dataReader.position
      invariant more <==> dataReader.position < |lines|
      invariant LineEvents(generator, lines[start..dataReader.position]) == Ok(read)
      decreases |lines| - dataReader.position
    {
      var event := ReadStep(reader, start, read);
      if event.Err? {
        return Err(event.error);
      }
      read := read + [event.value];
      more := reader.HasNext();
    }
    assert lines[start..dataReader.position] == lines[start..];
    events := Ok(read);
  }

  /** One read of the trainer's loop: the event of the next line, which extends the
      events of the lines read since `start` on success and ends the reading on failure. */
  method ReadStep(reader: EventReader, ghost start: nat, ghost read: seq<TrainingEvent>) returns (event: Result<TrainingEvent>)
    requires reader.dataReader.Valid()
    requires start <= reader.dataReader.position < |reader.dataReader.lines|
    requires LineEvents(reader.contextGenerator, reader.dataReader.lines[start..reader.dataReader.position]) == Ok(read)
    modifies reader.dataReader
    ensures reader.dataReader.Valid() && reader.dataReader.position == old(reader.dataReader.position) + 1
    ensures event.Ok? ==>
      LineEvents(reader.contextGenerator, reader.dataReader.lines[start..reader.dataReader.position]) == Ok(read + [event.value])
    ensures event.Err? ==>
      DrainedAt(reader.contextGenerator, reader.dataReader.lines, start, reader.dataReader.position, Err(event.error))
  {
    ghost var generator, lines, position := reader.contextGenerator, reader.dataReader.lines, reader.dataReader.position;
    LineEventsStep(generator, lines, start, position, read);
    event := reader.ReadNextEvent();
    assert reader.dataReader.lines[start..reader.dataReader.position] == lines[start..position + 1];
  }

  /** Reading one more line: a success extends the events read so far, a failure ends
      the reading just past that line. */
  lemma LineEventsStep(generator: Generator, lines: seq<string>, start: nat, k: nat, read: seq<TrainingEvent>)
    requires start <= k < |lines| && LineEvents(generator, lines[start..k]) == Ok(read)
    ensures LineEvent(generator, lines[k]).Ok? ==>
      LineEvents(generator, lines[start..k + 1]) == Ok(read + [LineEvent(generator, lines[k]).value])
    ensures LineEvent(generator, lines[k]).Err? ==>
      DrainedAt(generator, lines, start, k + 1, Err(LineEvent(generator, lines[k]).error))
  {
    DrainStep(LineEvent, generator, lines, start, k, read);
  }

  /** The events of a fresh reader over the lines of one training file, read to the
      end with the extractor's context. */
  method ReadTrainingFile(lines: seq<string>) returns (events: Result<seq<TrainingEvent>>)
    ensures events == LineEvents(DefaultContext, lines)
  {
    var dataReader := new LineReader(lines);
    var eventReader := new EventReader(dataReader);
    events := ReadAllLineEvents(eventReader);
    assert lines[0..] == lines;
  }

  // ---------------------------------------------------------------------------
  // Properties

  /** The address is the line's longest tab-free prefix. */
  lemma EmailFieldSpec(line: string)
    ensures EmailField(line) <= line && '\t' !in EmailField(line)
    ensures |EmailField(line)| < |line| ==> line[|EmailField(line)|] == '\t'
  {
    SplitFirst(line, '\t');
  }

  /** The flag is the line's longest tab-free suffix. */
  lemma FlagFieldSpec(line: string)
    ensures |FlagField(line)| <= |line| && FlagField(line) == line[|line| - |FlagField(line)|..]
    ensures '\t' !in FlagField(line)
    ensures |FlagField(line)| < |line| ==> line[|line| - |FlagField(line)| - 1] == '\t'
  {
    SplitLast(line, '\t');
  }

  /** A line of tab-free fields gives the first field as the address and is flagged
      invalid exactly when its last field is "1"; the fields between are ignored. */
  lemma LineFields(fields: seq<string>)
    requires |fields| >= 1
    requires forall i :: 0 <= i < |fields| ==> '\t' !in fields[i]
    ensures EmailField(Join("\t", fields)) == fields[0]
    ensures IsInvalidFlag(Join("\t", fields)) <==> Last(fields) == "1"
  {
    SplitJoin(fields, '\t');
  }

  /** A line without a tab is both the address and the flag. */
  lemma LineWithoutTab(line: string)
    requires '\t' !in line
    ensures EmailField(line) == line
    ensures IsInvalidFlag(line) <==> line == "1"
  {
    SplitFirst(line, '\t');
  }

  /** The line "1" is an invalid example whose address is "1". */
  lemma SingleFieldExample()
    ensures EmailField("1") == "1" && IsInvalidFlag("1")
  {
    LineWithoutTab("1");
  }

  /** A flag with trailing text marks a valid example. */
  lemma TrailingSpaceExample()
    ensures EmailField("jane.doe@gmail.com\t1 ") == "jane.doe@gmail.com"
    ensures !IsInvalidFlag("jane.doe@gmail.com\t1 ")
  {
    LineFields(["jane.doe@gmail.com", "1 "]);
    assert Join("\t", ["jane.doe@gmail.com", "1 "]) == "jane.doe@gmail.com\t1 ";
  }

  /** Middle fields are ignored: only the last field decides the flag. */
  lemma MiddleFieldExamples()
    ensures EmailField("a@b.c\tx\t1") == "a@b.c" && IsInvalidFlag("a@b.c\tx\t1")
    ensures !IsInvalidFlag("a@b.c\t1\t0")
  {
    LineFields(["a@b.c", "x", "1"]);
    assert Join("\t", ["a@b.c", "x", "1"]) == "a@b.c\tx\t1";
    LineFields(["a@b.c", "1", "0"]);
    assert Join("\t", ["a@b.c", "1", "0"]) == "a@b.c\t1\t0";
  }

  /** A line written with two spaces between address and flag has no tab: it is a
      single field, so the whole line is the address and the example is valid. */
  lemma SpaceSeparatedLineExample()
    ensures EmailField("lqsmkdqmsdkl@qsdkqsmdk  1") == "lqsmkdqmsdkl@qsdkqsmdk  1"
    ensures !IsInvalidFlag("lqsmkdqmsdkl@qsdkqsmdk  1")
    ensures forall generator: Generator :: LineEvent(generator, "lqsmkdqmsdkl@qsdkqsmdk  1").Ok? ==>
      LineEvent(generator, "lqsmkdqmsdkl@qsdkqsmdk  1").value.outcome == "OK"
  {
    LineWithoutTab("lqsmkdqmsdkl@qsdkqsmdk  1");
  }

  /** Parsing the line of an example whose address has no tab gives back the address
      and the flag. */
  lemma FormatLineRoundTrip(x: EmailAndValidity)
    requires '\t' !in x.email
    ensures EmailField(FormatLine(x)) == x.email
    ensures IsInvalidFlag(FormatLine(x)) <==> x.isInvalid
    ensures forall generator: Generator :: LineEvent(generator, FormatLine(x)) == ExampleEvent(generator, x)
  {
    var flag := if x.isInvalid then "1" else "0";
    LineFields([x.email, flag]);
    assert Join("\t", [x.email, flag]) == FormatLine(x);
  }

  /** A training file holding the examples gives the same events as the in-memory
      source over the examples, as long as no address contains a tab. */
  lemma {:induction false} FormatLinesEvents(generator: Generator, xs: seq<EmailAndValidity>)
    requires forall i :: 0 <= i < |xs| ==> '\t' !in xs[i].email
    ensures LineResults(generator, FormatLines(xs)) == ExampleResults(generator, xs)
    ensures LineEvents(generator, FormatLines(xs)) == ExampleEvents(generator, xs)
  {
    if xs != [] {
      var init := xs[..|xs| - 1];
      FormatLinesEvents(generator, init);
      FormatLineRoundTrip(Last(xs));
      var lines := FormatLines(xs);
      assert lines[..|lines| - 1] == FormatLines(init);
    }
  }

  /** The lines give events exactly when every line does; then there is one event per
      line, in order, the i-th flagged "INV" exactly when the i-th line's last field
      is "1". */
  lemma LineEventsSpec(generator: Generator, lines: seq<string>)
    ensures LineEvents(generator, lines).Ok? <==> forall i :: 0 <= i < |lines| ==> LineEvent(generator, lines[i]).Ok?
    ensures LineEvents(generator, lines).Ok? ==>
      && |LineEvents(generator, lines).value| == |lines|
      && forall i :: 0 <= i < |lines| ==>
        && Ok(LineEvents(generator, lines).value[i].context) == generator(EmailField(lines[i]))
        && (LineEvents(generator, lines).value[i].outcome == "INV" <==> FlagField(lines[i]) == "1")
  {
    MapWithSpec(LineEvent, generator, lines);
    CollectSpec(LineResults(generator, lines));
  }
}
