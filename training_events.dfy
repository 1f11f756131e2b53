/** The training events both event sources produce: an outcome label together with
    the context the feature extractor computes for an address. */
module TrainingEvents {
  import opened Strings
  import opened ContextGenerator

  /** One labelled example: an address and whether it is known to be invalid. */
  datatype EmailAndValidity = EmailAndValidity(email: string, isInvalid: bool)

  /** An outcome observed together with its context tokens. */
  datatype TrainingEvent = TrainingEvent(outcome: string, context: seq<string>)

  /** The outcome of an example: "INV" for an invalid address, "OK" for any other. */
  function OutcomeLabel(isInvalid: bool): (outcome: string)
    ensures outcome == "INV" <==> isInvalid
    ensures outcome == "OK" <==> !isInvalid
  {
    if isInvalid then "INV" else "OK"
  }

  /** A context generator (the source's IContextGenerator<string>): the context
      tokens of an address, or the failure computing them. */
  type Generator = string -> Result<seq<string>>

  /** The context the feature extractor gives an address; the GetContext method
      computes it. */
  function DefaultContext(email: string): Result<seq<string>>
  {
    Rendered(Features(email))
  }

  /** The event with outcome `outcome` and the context `generator` gives `email`; it
      fails exactly when the generator does. */
  function EventOf(generator: Generator, outcome: string, email: string): Result<TrainingEvent>
  {
    match generator(email)
    case Ok(context) => Ok(TrainingEvent(outcome, context))
    case Err(e) => Err(e)
  }

  /** The event of one in-memory example. */
  function ExampleEvent(generator: Generator, x: EmailAndValidity): Result<TrainingEvent>
  {
    EventOf(generator, OutcomeLabel(x.isInvalid), x.email)
  }

  /** `f(c, x)` for each element `x` of `xs`, in order. */
  function MapWith<C, A, B>(f: (C, A) -> B, c: C, xs: seq<A>): seq<B>
  {
    if xs == [] then [] else MapWith(f, c, xs[..|xs| - 1]) + [f(c, Last(xs))]
  }

  /** The results of the examples, one per example, in order. */
  function ExampleResults(generator: Generator, xs: seq<EmailAndValidity>): seq<Result<TrainingEvent>>
  {
    MapWith(ExampleEvent, generator, xs)
  }

  /** The values of the results in order, or the first failure among them. */
  function Collect<T>(rs: seq<Result<T>>): Result<seq<T>>
  {
    if rs == [] then Ok([])
    else
      match Collect(rs[..|rs| - 1])
      case Err(e) => Err(e)
      case Ok(values) =>
        match Last(rs)
        case Err(e) => Err(e)
        case Ok(v) => Ok(values + [v])
  }

  /** The events of the examples in order, or the failure of the first example whose
      context cannot be computed. */
  function ExampleEvents(generator: Generator, xs: seq<EmailAndValidity>): Result<seq<TrainingEvent>>
  {
    Collect(ExampleResults(generator, xs))
  }

  // ---------------------------------------------------------------------------
  // Properties

  /** With the extractor's context, an event exists exactly when the address does not
      start with '@'; it carries the given outcome and ten to twelve tokens, the last
      one the TLD token. */
  lemma DefaultEventSpec(outcome: string, email: string)
    ensures EventOf(DefaultContext, outcome, email).Ok? <==> email != [] && email[0] != '@'
    ensures EventOf(DefaultContext, outcome, email).Ok? ==>
      && EventOf(DefaultContext, outcome, email).value.outcome == outcome
      && 10 <= |EventOf(DefaultContext, outcome, email).value.context| <= 12
      && Last(EventOf(DefaultContext, outcome, email).value.context) in {"oTld", "cTld", "uTld"}
  {
    FeaturesFailure(email);
    if Features(email).Ok? {
      ContextTokens(email);
    }
  }

  /** One image per element, the i-th being the image of the i-th element. */
  lemma {:induction false} MapWithSpec<C, A, B>(f: (C, A) -> B, c: C, xs: seq<A>)
    ensures |MapWith(f, c, xs)| == |xs|
    ensures forall i :: 0 <= i < |xs| ==> MapWith(f, c, xs)[i] == f(c, xs[i])
  {
    if xs != [] {
      var init := xs[..|xs| - 1];
      MapWithSpec(f, c, init);
      forall i | 0 <= i < |xs| ensures MapWith(f, c, xs)[i] == f(c, xs[i]) {
        if i < |init| {
          assert init[i] == xs[i];
        }
      }
    }
  }

  /** Mapping a concatenation maps each part. */
  lemma {:induction false} MapWithAppend<C, A, B>(f: (C, A) -> B, c: C, xs: seq<A>, ys: seq<A>)
    ensures MapWith(f, c, xs + ys) == MapWith(f, c, xs) + MapWith(f, c, ys)
  {
    if ys == [] {
      assert xs + ys == xs;
    } else {
      var init := ys[..|ys| - 1];
      MapWithAppend(f, c, xs, init);
      assert (xs + ys)[..|xs + ys| - 1] == xs + init;
    }
  }

  /** Mapping one more element of a slice adds its image. */
  lemma MapWithSliceSnoc<C, A, B>(f: (C, A) -> B, c: C, xs: seq<A>, start: nat, k: nat)
    requires start <= k < |xs|
    ensures MapWith(f, c, xs[start..k + 1]) == MapWith(f, c, xs[start..k]) + [f(c, xs[k])]
  {
    assert xs[start..k + 1][..k - start] == xs[start..k];
  }

  /** Collecting succeeds exactly when every result is a success; it then keeps every
      value, in order. */
  lemma {:induction false} CollectSpec<T>(rs: seq<Result<T>>)
    ensures Collect(rs).Ok? <==> forall i :: 0 <= i < |rs| ==> rs[i].Ok?
    ensures Collect(rs).Ok? ==>
      && |Collect(rs).value| == |rs|
      && forall i :: 0 <= i < |rs| ==> Collect(rs).value[i] == rs[i].value
  {
    if rs != [] {
      var init := rs[..|rs| - 1];
      CollectSpec(init);
      assert forall i :: 0 <= i < |init| ==> init[i] == rs[i];
      if Collect(init).Err? {
        var k :| 0 <= k < |init| && init[k].Err?;
        assert rs[k].Err?;
      }
    }
  }

  /** Once a prefix fails, collecting further results does not change the failure. */
  lemma {:induction false} CollectFailurePersists<T>(rs: seq<Result<T>>, more: seq<Result<T>>)
    requires Collect(rs).Err?
    ensures Collect(rs + more) == Collect(rs)
  {
    if more != [] {
      var init := more[..|more| - 1];
      CollectFailurePersists(rs, init);
      assert (rs + more)[..|rs + more| - 1] == rs + init;
    } else {
      assert rs + more == rs;
    }
  }

  /** A failure among the images of a slice's first elements is the failure of the
      whole slice. */
  lemma MapWithStops<C, A, B>(f: (C, A) -> Result<B>, c: C, xs: seq<A>, start: nat, k: nat)
    requires start <= k <= |xs|
    requires Collect(MapWith(f, c, xs[start..k])).Err?
    ensures Collect(MapWith(f, c, xs[start..])) == Collect(MapWith(f, c, xs[start..k]))
  {
    MapWithAppend(f, c, xs[start..k], xs[k..]);
    assert xs[start..k] + xs[k..] == xs[start..];
    CollectFailurePersists(MapWith(f, c, xs[start..k]), MapWith(f, c, xs[k..]));
  }

  /** One step of reading a run of inputs in order: when the inputs read so far gave
      `read`, a successful next result extends it, and a failed one is the failure of
      the whole run. */
  lemma DrainStep<C, A, B>(f: (C, A) -> Result<B>, c: C, xs: seq<A>, start: nat, k: nat, read: seq<B>)
    requires start <= k < |xs|
    requires Collect(MapWith(f, c, xs[start..k])) == Ok(read)
    ensures f(c, xs[k]).Ok? ==> Collect(MapWith(f, c, xs[start..k + 1])) == Ok(read + [f(c, xs[k]).value])
    ensures f(c, xs[k]).Err? ==> Collect(MapWith(f, c, xs[start..k + 1])) == Err(f(c, xs[k]).error)
    ensures f(c, xs[k]).Err? ==> Collect(MapWith(f, c, xs[start..])) == Err(f(c, xs[k]).error)
  {
    var results := MapWith(f, c, xs[start..k]);
    MapWithSliceSnoc(f, c, xs, start, k);
    var extended := results + [f(c, xs[k])];
    assert extended[..|extended| - 1] == results;
    if f(c, xs[k]).Err? {
      MapWithStops(f, c, xs, start, k + 1);
    }
  }

  /** Reading one more example: a success extends the events read so far, a failure is
      the failure of all the remaining examples. */
  lemma ExampleEventsStep(generator: Generator, xs: seq<EmailAndValidity>, start: nat, k: nat, read: seq<TrainingEvent>)
    requires start <= k < |xs| && ExampleEvents(generator, xs[start..k]) == Ok(read)
    ensures ExampleEvent(generator, xs[k]).Ok? ==>
      ExampleEvents(generator, xs[start..k + 1]) == Ok(read + [ExampleEvent(generator, xs[k]).value])
    ensures ExampleEvent(generator, xs[k]).Err? ==>
      ExampleEvents(generator, xs[start..]) == Err(ExampleEvent(generator, xs[k]).error)
  {
    DrainStep(ExampleEvent, generator, xs, start, k, read);
  }

  /** With the extractor's context, the examples give events exactly when no address
      starts with '@'; then there is one event per example, in order, the i-th carrying
      the context of the i-th address and the outcome "INV" exactly when that example
      is invalid. */
  lemma ExampleEventsSpec(xs: seq<EmailAndValidity>)
    ensures ExampleEvents(DefaultContext, xs).Ok? <==> forall i :: 0 <= i < |xs| ==> xs[i].email != [] && xs[i].email[0] != '@'
    ensures ExampleEvents(DefaultContext, xs).Ok? ==>
      && |ExampleEvents(DefaultContext, xs).value| == |xs|
      && forall i :: 0 <= i < |xs| ==>
        && Ok(ExampleEvents(DefaultContext, xs).value[i].context) == DefaultContext(xs[i].email)
        && (ExampleEvents(DefaultContext, xs).value[i].outcome == "INV" <==> xs[i].isInvalid)
  {
    MapWithSpec(ExampleEvent, DefaultContext, xs);
    CollectSpec(ExampleResults(DefaultContext, xs));
    forall i | 0 <= i < |xs|
      ensures ExampleEvent(DefaultContext, xs[i]).Ok? <==> xs[i].email != [] && xs[i].email[0] != '@'
      ensures ExampleEvent(DefaultContext, xs[i]).Ok? ==> ExampleEvent(DefaultContext, xs[i]).value.outcome == OutcomeLabel(xs[i].isInvalid)
    {
      DefaultEventSpec(OutcomeLabel(xs[i].isInvalid), xs[i].email);
    }
  }

  /** An address with an empty local part gives no event, whatever its label, and
      stops the examples that follow it from giving any. */
  lemma EmptyLocalPartExample(isInvalid: bool)
    ensures ExampleEvent(DefaultContext, EmailAndValidity("@example.com", isInvalid)).Err?
    ensures ExampleEvents(DefaultContext, [EmailAndValidity("jane.doe@gmail.com", false), EmailAndValidity("@example.com", isInvalid)]).Err?
  {
    var xs := [EmailAndValidity("jane.doe@gmail.com", false), EmailAndValidity("@example.com", isInvalid)];
    ExampleEventsSpec(xs);
    assert xs[1].email[0] == '@';
  }
}
