/** The in-memory event source: a single pass over a list of labelled examples,
    turning each into a training event. */
module InMemoryEvents {
  import opened ContextGenerator
  import opened TrainingEvents

  /** A cursor over a fixed list of examples; the list never changes, the cursor only
      moves forward. */
  class DataEventReader {
    const examples: seq<EmailAndValidity>
    var cursor: nat
    const contextGenerator: Generator

    predicate Valid()
      reads this
    {
      cursor <= |examples|
    }

    /** Copies the examples, starts before the first one and uses the extractor's
        context. */
    constructor (emailsAndValidities: seq<EmailAndValidity>)
      ensures Valid()
      ensures examples == emailsAndValidities && cursor == 0 && contextGenerator == DefaultContext
    {
      cursor := 0;
      examples := emailsAndValidities;
      contextGenerator := DefaultContext;
    }

    /** The event of the example at the cursor. The cursor moves past the example only
        when its context can be computed: otherwise the failure leaves the reader as
        it was. */
    method ReadNextEvent() returns (event: Result<TrainingEvent>)
      requires Valid() && cursor < |examples|
      modifies this
      ensures Valid()
      ensures event == ExampleEvent(contextGenerator, examples[old(cursor)])
      ensures cursor == if event.Ok? then old(cursor) + 1 else old(cursor)
    {
      var emailAndValidity := examples[cursor];
      var outcome := if emailAndValidity.isInvalid then "INV" else "OK";
      var email := emailAndValidity.email;
      var context := contextGenerator(email);
      if context.Err? {
        return Err(context.error);
      }
      event := Ok(TrainingEvent(outcome, context.value));
      cursor := cursor + 1;
    }

    /** Some example is left to read. */
    method HasNext() returns (more: bool)
      requires Valid()
      ensures more <==> cursor < |examples|
    {
      more := cursor < |examples|;
    }
  }

  /** Reads events until the reader has none left, as a trainer consumes it: the
      events of the remaining examples in order, or the first failure, with the cursor
      left on the example that failed. */
  method ReadAllEvents(reader: DataEventReader) returns (events: Result<seq<TrainingEvent>>)
    requires reader.Valid()
    modifies reader
    ensures reader.Valid()
    ensures events == ExampleEvents(reader.contextGenerator, reader.examples[old(reader.cursor)..])
    ensures events.Ok? ==> reader.cursor == |reader.examples|
    ensures events.Err? ==>
      && old(reader.cursor) <= reader.cursor < |reader.examples|
      && ExampleEvent(reader.contextGenerator, reader.examples[reader.cursor]).Err?
      && ExampleEvents(reader.contextGenerator, reader.examples[old(reader.cursor)..reader.cursor]).Ok?
  {
    ghost var start := reader.cursor;
    var read: seq<TrainingEvent> := [];
    var more := reader.HasNext();
    while more
      invariant reader.Valid() && start <= reader.cursor
      invariant more <==> reader.cursor < |reader.examples|
      invariant ExampleEvents(reader.contextGenerator, reader.examples[start..reader.cursor]) == Ok(read)
      decreases |reader.examples| - reader.cursor
    {
      ghost var position := reader.cursor;
      var event := reader.ReadNextEvent();
      ExampleEventsStep(reader.contextGenerator, reader.examples, start, position, read);
      if event.Err? {
        return Err(event.error);
      }
      read := read + [event.value];
      more := reader.HasNext();
      assert reader.examples[start..reader.cursor] == reader.examples[start..position + 1];
    }
    assert reader.examples[start..reader.cursor] == reader.examples[start..];
    events := Ok(read);
  }

  /** The events of a fresh reader over `emailsAndValidities`, read to the end. */
  method CollectTrainingEvents(emailsAndValidities: seq<EmailAndValidity>) returns (events: Result<seq<TrainingEvent>>)
    ensures events == ExampleEvents(DefaultContext, emailsAndValidities)
  {
    var reader := new DataEventReader(emailsAndValidities);
    events := ReadAllEvents(reader);
    assert emailsAndValidities[0..] == emailsAndValidities;
  }
}
