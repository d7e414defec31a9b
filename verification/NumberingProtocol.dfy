/** The official-numbering step: which outcome may leave it, whatever the native editor answers
    (app/local_cli_bundle_numbering.py). */
module NumberingProtocol {
  import opened Text

  /** Exception classes the step distinguishes; exact says the object is of the class itself, not of a subclass. */
  datatype Error =
    | NativeRefusal(code: string, exact: bool, limitCause: bool)
    | ReadFailure
    | SemanticRefusal(code: string, exact: bool)
    | CleanRefusal(code: string, exact: bool)
    | TargetNotFound(exact: bool)
    | TextUnusable
    | MutationError(mayPersist: bool)
    | RuntimeFailure
    | OtherFailure(name: string)
    | Signal(name: string)
  {
    /** The classes that tell the caller nothing changed. */
    predicate Refusal() {
      (NativeRefusal? && exact) || (SemanticRefusal? && exact) || (CleanRefusal? && exact)
    }

    /** A refusal over a control chain longer than the limit: judged from data that was returned. */
    predicate ControlLimit() {
      NativeRefusal? && exact && code == "control_enumeration_unavailable" && limitCause
    }
  }

  datatype Response<+T> = Returned(value: T) | Raised(error: Error)
  {
    predicate IsFailure() { Raised? }
    function PropagateFailure<U>(): Response<U>
      requires Raised?
    {
      Raised(error)
    }
    function Extract(): T
      requires Returned?
    {
      value
    }
  }

  /** A selection with the lists of its two ends. */
  datatype Selection = Selection(startList: int, endList: int, rest: string)
  datatype State = State(caret: string, selection: Option<Selection>)
  {
    predicate CrossesLists() { selection.Some? && selection.value.startList != selection.value.endList }
  }

  /** Preservation evidence: all its content, and which of it is complete. */
  datatype Census = Census(content: string, mandatory: bool, digests: bool, restarts: bool)
  {
    /** _official_text_evidence_complete */
    predicate Complete() { mandatory && digests }
  }

  /** What the protection callback hands over, before it is checked. */
  datatype Raw = Raw(plain: bool, exactFields: bool, valid: bool, placed: bool, census: Census)

  /** Evidence that can serve as proof: every preservation field and every digest is there. */
  predicate Whole(c: Census) { c.Complete() && c.restarts }

  /** An answer _guard_protection hands on: plain data, exactly the required fields, valid, whole, with placed
      paragraphs. */
  predicate Usable(raw: Response<Raw>) {
    raw.Returned? && raw.value.plain && raw.value.exactFields && raw.value.valid && raw.value.placed
        && Whole(raw.value.census)
  }

  /** An answer that is merely incomplete: the native read worked, but what it returned cannot serve as evidence. */
  predicate Incomplete(raw: Response<Raw>) {
    (raw.Raised? && raw.error.TextUnusable?)
    || (raw.Returned? && raw.value.plain && raw.value.exactFields && raw.value.valid && !Whole(raw.value.census))
  }

  /** Text hash and control ids. */
  datatype Content = Content(text: string, controls: seq<string>)
  datatype Target = Target(plain: bool, page: Option<int>)

  /** One run of the native numbering call: whether it announced a mutator, whether its semantic hook fired, how it
      ended. */
  datatype NativeRun = NativeRun(issued: bool, semantic: bool, ending: Response<string>)

  /** An arbitrary editor: its answer to each call, by the number of calls before. */
  datatype Editor = Editor(state: nat -> Response<Option<State>>, evidence: nat -> Response<Raw>,
                           preflight: nat -> Response<Content>, text: nat -> Response<string>,
                           controls: nat -> Response<seq<string>>, find: nat -> Response<Target>,
                           number: nat -> NativeRun, motion: nat -> Response<()>)

  /** An editor where caret, selection and document stay as they are. */
  ghost predicate CalmReads(editor: Editor, original: State, before: Census, content: Content) {
    && Whole(before) && !original.CrossesLists()
    && (forall n :: editor.state(n) == Returned(Some(original)))
    && (forall n :: editor.evidence(n) == Returned(Raw(true, true, true, true, before)))
    && (forall n :: editor.preflight(n) == Returned(content))
    && (forall n :: editor.text(n) == Returned(content.text))
    && (forall n :: editor.controls(n) == Returned(content.controls))
  }

  /** ... and every motion succeeds. */
  ghost predicate Calm(editor: Editor, original: State, before: Census, content: Content) {
    CalmReads(editor, original, before, content) && Moving(editor)
  }

  ghost predicate Moving(editor: Editor) {
    forall n :: editor.motion(n) == Returned(())
  }

  ghost predicate Still(editor: Editor) {
    exists original: State, before: Census, content: Content :: CalmReads(editor, original, before, content)
  }

  lemma StillParts(editor: Editor) returns (original: State, before: Census, content: Content)
    ensures Still(editor) ==> CalmReads(editor, original, before, content)
  {
    if Still(editor) {
      original, before, content :| CalmReads(editor, original, before, content);
    } else {
      original, before, content := *, *, *;
    }
  }

  lemma ReadsAt(editor: Editor, original: State, before: Census, content: Content, n: nat)
    ensures CalmReads(editor, original, before, content) ==>
              && Whole(before) && before.mandatory && !original.CrossesLists()
              && editor.state(n) == Returned(Some(original))
                 && editor.evidence(n) == Returned(Raw(true, true, true, true, before))
              && editor.preflight(n) == Returned(content) && editor.text(n) == Returned(content.text)
              && editor.controls(n) == Returned(content.controls)
  {
  }

  lemma CalmAt(editor: Editor, original: State, before: Census, content: Content, n: nat)
    ensures Calm(editor, original, before, content) ==>
              && Whole(before) && !original.CrossesLists()
              && editor.state(n) == Returned(Some(original))
                 && editor.evidence(n) == Returned(Raw(true, true, true, true, before))
              && editor.preflight(n) == Returned(content) && editor.text(n) == Returned(content.text)
              && editor.controls(n) == Returned(content.controls) && editor.motion(n) == Returned(())
  {
    ReadsAt(editor, original, before, content, n);
  }

  // ------------------------------------------------------------ what happened

  datatype Event =
    | ReadState(state: Response<Option<State>>)
    | ReadEvidence(evidence: Response<Census>)
    | ReadContent(content: Response<Content>)
    | ReadText(text: Response<string>)
    | ReadControls(controls: Response<seq<string>>)
    | Found(target: Response<Target>)
    | Numbered(run: NativeRun)
    | Moved(motion: Response<()>)
  {
    /** The caret or selection may have moved. */
    predicate Moves() { Found? || Numbered? || Moved? }

    /** The foreign finder or numbering call ran. */
    predicate Foreign() { Found? || Numbered? }

    predicate Failed() {
      match this
      case ReadState(r) => r.Raised?
      case ReadEvidence(r) => r.Raised?
      case ReadContent(r) => r.Raised?
      case ReadText(r) => r.Raised?
      case ReadControls(r) => r.Raised?
      case Found(r) => r.Raised?
      case Numbered(run) => run.ending.Raised?
      case Moved(r) => r.Raised?
    }

    /** The call raised this. */
    predicate Raises(e: Error) {
      match this
      case ReadState(r) => r == Raised(e)
      case ReadEvidence(r) => r == Raised(e)
      case ReadContent(r) => r == Raised(e)
      case ReadText(r) => r == Raised(e)
      case ReadControls(r) => r == Raised(e)
      case Found(r) => r == Raised(e)
      case Numbered(run) => run.ending == Raised(e)
      case Moved(r) => r == Raised(e)
    }

    /** The three failures known to come from returned data: the control limit, the exact "not found", the semantic
        hook without a mutator. */
    predicate Trusted() {
      || (ReadContent? && content.Raised? && content.error.ControlLimit())
      || (Found? && target.Raised? && target.error == TargetNotFound(true))
      || (Numbered? && run.semantic && !run.issued && run.ending.Raised? && run.ending.error.NativeRefusal?
          && run.ending.error.exact)
    }
  }

  // ------------------------------------------------------------ what the first answers decide

  /** The first state read is a place in one list. */
  ghost predicate Placed(editor: Editor) {
    editor.state(0).Returned? && editor.state(0).value.Some? && !editor.state(0).value.value.CrossesLists()
  }

  /** The controls are too many, and the place is read again as it was. */
  ghost predicate TooManyControls(editor: Editor) {
    && Placed(editor) && Usable(editor.evidence(1))
    && editor.preflight(2) == Raised(NativeRefusal("control_enumeration_unavailable", true, true))
    && editor.state(3) == editor.state(0)
  }

  /** ... and so is the evidence. */
  ghost predicate ControlsRefuse(editor: Editor) {
    TooManyControls(editor) && Usable(editor.evidence(4))
    && editor.evidence(4).value.census == editor.evidence(1).value.census
  }

  /** Evidence returned before anything moved cannot serve. */
  ghost predicate EvidenceRefuses(editor: Editor) {
    (Placed(editor) && Incomplete(editor.evidence(1)))
    || (TooManyControls(editor) && Incomplete(editor.evidence(4)))
  }

  type Trace = seq<Event>

  ghost predicate MutatorAnnounced(t: Trace) {
    exists i :: 0 <= i < |t| && t[i].Numbered? && t[i].run.issued
  }

  ghost predicate Navigated(t: Trace) {
    exists i :: 0 <= i < |t| && t[i].Moves()
  }

  ghost predicate FailuresTrusted(t: Trace) {
    forall i :: 0 <= i < |t| && t[i].Failed() ==> t[i].Trusted()
  }

  /** After an untrusted failure there is no further call. */
  ghost predicate StopsAtFailure(t: Trace) {
    t == [] || FailuresTrusted(t[..|t| - 1])
  }

  /** From k on no foreign call ran, and evidence, text and controls were read and are the given ones. */
  ghost predicate ContentBack(t: Trace, k: nat, before: Census, content: Content)
    requires k <= |t|
  {
    && (forall i :: k <= i < |t| ==> !t[i].Foreign())
    && ReadEvidence(Returned(before)) in t[k..] && ReadText(Returned(content.text)) in t[k..]
    && ReadControls(Returned(content.controls)) in t[k..]
  }

  /** From m on nothing moved, and caret and selection were read and are the given ones. */
  ghost predicate StateBack(t: Trace, m: nat, original: State)
    requires m <= |t|
  {
    (forall i :: m <= i < |t| ==> !t[i].Moves()) && ReadState(Returned(Some(original))) in t[m..]
  }

  /** Caret, selection and preservation evidence are back at what the first reads found. */
  ghost predicate Restored(t: Trace) {
    && |t| >= 3 && t[0].ReadState? && t[0].state.Returned? && t[0].state.value.Some?
    && t[1].ReadEvidence? && t[1].evidence.Returned? && Whole(t[1].evidence.value) && t[2].ReadContent?
       && t[2].content.Returned?
    && (exists k: nat :: k <= |t| && ContentBack(t, k, t[1].evidence.value, t[2].content.value))
    && (exists m: nat :: m <= |t| && StateBack(t, m, t[0].state.value.value))
  }

  /** Without moving, caret, selection and evidence were read twice with the same result. */
  ghost predicate ReadTwice(t: Trace) {
    && |t| == 5 && t[0].ReadState? && t[0].state.Returned? && t[0].state.value.Some? && t[3] == t[0]
    && t[1].ReadEvidence? && t[1].evidence.Returned? && Whole(t[1].evidence.value) && t[4] == t[1]
  }

  /** The event is what the editor answered to call number i; evidence counts as read only when it was usable. */
  ghost predicate Answered(editor: Editor, e: Event, i: nat) {
    match e
    case ReadState(r) => r == editor.state(i)
    case ReadEvidence(r) => (r.Returned? <==> Usable(editor.evidence(i)))
        && (r.Returned? ==> r.value == editor.evidence(i).value.census)
    case ReadContent(r) => r == editor.preflight(i)
    case ReadText(r) => r == editor.text(i)
    case ReadControls(r) => r == editor.controls(i)
    case Found(r) => r == editor.find(i)
    case Numbered(run) => run == editor.number(i)
    case Moved(r) => r == editor.motion(i)
  }

  ghost predicate AllAnswered(editor: Editor, t: Trace) {
    forall i :: 0 <= i < |t| ==> Answered(editor, t[i], i)
  }

  /** The first reads were whole, and the strict finder found its text on the expected page. */
  ghost predicate OnTarget(t: Trace, expectedPage: int) {
    && |t| >= 4 && t[0].ReadState? && t[0].state.Returned? && t[0].state.value.Some?
    && t[1].ReadEvidence? && t[1].evidence.Returned? && Whole(t[1].evidence.value) && t[2].ReadContent?
       && t[2].content.Returned?
    && t[3] == Found(Returned(Target(true, Some(expectedPage))))
  }

  // ------------------------------------------------------------ the classes, case by case

  /** A refusal is an exact object of one of three classes; the control limit is one of them, with its code and
      cause. */
  lemma ErrorClasses(e: Error)
    ensures e.Refusal() <==>
        || (exists code, limit :: e == NativeRefusal(code, true, limit))
        || (exists code :: e == SemanticRefusal(code, true))
        || (exists code :: e == CleanRefusal(code, true))
    ensures e.ControlLimit() <==> e == NativeRefusal("control_enumeration_unavailable", true, true)
  {
  }

  /** Evidence serves when it is plain, exact, valid and placed, with every field and digest there; it is merely
      incomplete when a text cannot be used, or valid data lack a field or a digest. */
  lemma EvidenceClasses(raw: Response<Raw>)
    ensures Usable(raw) <==>
              exists content :: raw == Returned(Raw(true, true, true, true, Census(content, true, true, true)))
    ensures Incomplete(raw) <==>
        || raw == Raised(TextUnusable)
        || (exists placed, c: Census ::
              raw == Returned(Raw(true, true, true, placed, c)) && !(c.mandatory && c.digests && c.restarts))
  {
    if Usable(raw) {
      var c := raw.value.census;
      assert raw == Returned(Raw(true, true, true, true, Census(c.content, true, true, true)));
    }
    if raw.Returned? && Incomplete(raw) {
      assert raw == Returned(Raw(true, true, true, raw.value.placed, raw.value.census));
    }
  }

  /** Which calls move or run foreign code, which failed, and which failures are trusted. */
  lemma EventClasses(e: Event, error: Error)
    ensures e.Moves() <==> !e.ReadState? && !e.ReadEvidence? && !e.ReadContent? && !e.ReadText? && !e.ReadControls?
    ensures e.Foreign() <==> e.Moves() && !e.Moved?
    ensures e.Raises(error) <==>
        || e in {ReadState(Raised(error)), ReadEvidence(Raised(error)), ReadContent(Raised(error)),
                 ReadText(Raised(error)), ReadControls(Raised(error)), Found(Raised(error)), Moved(Raised(error))}
        || (exists issued, semantic :: e == Numbered(NativeRun(issued, semantic, Raised(error))))
    ensures e.Failed() <==> exists err :: e.Raises(err)
    ensures e.Trusted() <==>
        || e == ReadContent(Raised(NativeRefusal("control_enumeration_unavailable", true, true)))
        || e == Found(Raised(TargetNotFound(true)))
        || (exists code, limit :: e == Numbered(NativeRun(false, true, Raised(NativeRefusal(code, true, limit)))))
  {
    if e.Numbered? {
      assert e == Numbered(NativeRun(e.run.issued, e.run.semantic, e.run.ending));
    }
    if e.Failed() {
      var err := match e
        case ReadState(r) => r.error
        case ReadEvidence(r) => r.error
        case ReadContent(r) => r.error
        case ReadText(r) => r.error
        case ReadControls(r) => r.error
        case Found(r) => r.error
        case Numbered(run) => run.ending.error
        case Moved(r) => r.error;
      assert e.Raises(err);
    }
    if e.ReadContent? && e.content.Raised? { ErrorClasses(e.content.error); }
  }

  /** A call from place k on answered with this. */
  ghost predicate Later(t: Trace, k: nat, e: Event) {
    exists i :: k <= i < |t| && t[i] == e
  }

  /** What a restoration shows: place, evidence and content as first read; from k on no foreign call, and evidence, text
      and controls read again and found back; from m on no motion either, and the place read again and found back. */
  ghost predicate Shown(t: Trace, original: State, before: Census, content: Content, k: nat, m: nat) {
    && |t| >= 3 && t[0] == ReadState(Returned(Some(original))) && t[1] == ReadEvidence(Returned(before))
    && t[2] == ReadContent(Returned(content)) && before.mandatory && before.digests && before.restarts
    && (forall i :: k <= i < |t| ==> !t[i].Found? && !t[i].Numbered?)
    && Later(t, k, ReadEvidence(Returned(before))) && Later(t, k, ReadText(Returned(content.text)))
    && Later(t, k, ReadControls(Returned(content.controls)))
    && (forall i :: m <= i < |t| ==> !t[i].Found? && !t[i].Numbered? && !t[i].Moved?)
    && Later(t, m, ReadState(Returned(Some(original))))
  }

  lemma LaterIn(t: Trace, k: nat, e: Event)
    requires k <= |t|
    ensures e in t[k..] <==> Later(t, k, e)
  {
    if e in t[k..] {
      var i :| 0 <= i < |t| - k && t[k..][i] == e;
      assert t[k + i] == e;
    }
    if i :| k <= i < |t| && t[i] == e { assert t[k..][i - k] == e; }
  }

  lemma RestoredExactly(t: Trace)
    ensures Restored(t) <==>
              exists original, before, content, k: nat, m: nat :: Shown(t, original, before, content, k, m)
  {
    if Restored(t) {
      var original, before, content := t[0].state.value.value, t[1].evidence.value, t[2].content.value;
      var k: nat :| k <= |t| && ContentBack(t, k, before, content);
      var m: nat :| m <= |t| && StateBack(t, m, original);
      ShownParts(t, original, before, content, k, m);
      assert Shown(t, original, before, content, k, m);
    }
    if original, before, content, k: nat, m: nat :| Shown(t, original, before, content, k, m) {
      ShownParts(t, original, before, content, k, m);
    }
  }

  lemma ShownParts(t: Trace, original: State, before: Census, content: Content, k: nat, m: nat)
    requires |t| >= 3 && t[0] == ReadState(Returned(Some(original))) && t[1] == ReadEvidence(Returned(before))
    requires t[2] == ReadContent(Returned(content))
    ensures k <= |t| && m <= |t| && Whole(before) && ContentBack(t, k, before, content) && StateBack(t, m, original)
       <==> Shown(t, original, before, content, k, m)
  {
    if k <= |t| {
      LaterIn(t, k, ReadEvidence(Returned(before)));
      LaterIn(t, k, ReadText(Returned(content.text)));
      LaterIn(t, k, ReadControls(Returned(content.controls)));
    }
    if m <= |t| { LaterIn(t, m, ReadState(Returned(Some(original)))); }
  }

  /** Five reads, the last two alike the first two, and nothing else. */
  lemma ReadTwiceExactly(t: Trace)
    ensures ReadTwice(t) <==> exists original, before, third ::
        && t == [ReadState(Returned(Some(original))), ReadEvidence(Returned(before)), third,
                 ReadState(Returned(Some(original))), ReadEvidence(Returned(before))]
        && before.mandatory && before.digests && before.restarts
  {
    if ReadTwice(t) {
      assert t == [ReadState(Returned(Some(t[0].state.value.value))), ReadEvidence(Returned(t[1].evidence.value)), t[2],
                   ReadState(Returned(Some(t[0].state.value.value))), ReadEvidence(Returned(t[1].evidence.value))];
    }
  }

  lemma OnTargetExactly(t: Trace, expectedPage: int)
    ensures OnTarget(t, expectedPage) <==> exists original, before, content ::
        && [ReadState(Returned(Some(original))), ReadEvidence(Returned(before)), ReadContent(Returned(content)),
            Found(Returned(Target(true, Some(expectedPage))))] <= t
        && before.mandatory && before.digests && before.restarts
  {
    if OnTarget(t, expectedPage) {
      assert [ReadState(Returned(Some(t[0].state.value.value))), ReadEvidence(Returned(t[1].evidence.value)),
              ReadContent(Returned(t[2].content.value)), Found(Returned(Target(true, Some(expectedPage))))] <= t;
    }
  }

  // ------------------------------------------------------------ lemmas about traces

  lemma TrustedMore(t: Trace, e: Event)
    requires FailuresTrusted(t)
    ensures StopsAtFailure(t + [e])
    ensures !e.Failed() || e.Trusted() ==> FailuresTrusted(t + [e])
  {
    assert (t + [e])[..|t|] == t;
  }

  lemma TrustedStops(t: Trace)
    requires FailuresTrusted(t)
    ensures StopsAtFailure(t)
  {
  }

  lemma MutatorMore(t: Trace, e: Event)
    ensures MutatorAnnounced(t + [e]) <==> MutatorAnnounced(t) || (e.Numbered? && e.run.issued)
  {
    if MutatorAnnounced(t) {
      var i :| 0 <= i < |t| && t[i].Numbered? && t[i].run.issued;
      assert (t + [e])[i] == t[i];
    }
    if e.Numbered? && e.run.issued { assert (t + [e])[|t|] == e; }
    if MutatorAnnounced(t + [e]) && !(e.Numbered? && e.run.issued) {
      var i :| 0 <= i < |t + [e]| && (t + [e])[i].Numbered? && (t + [e])[i].run.issued;
      assert t[i] == (t + [e])[i];
    }
  }

  lemma NavigatedMore(t: Trace, e: Event)
    ensures Navigated(t + [e]) <==> Navigated(t) || e.Moves()
  {
    if Navigated(t) {
      var i :| 0 <= i < |t| && t[i].Moves();
      assert (t + [e])[i] == t[i];
    }
    if e.Moves() { assert (t + [e])[|t|] == e; }
    if Navigated(t + [e]) && !e.Moves() {
      var i :| 0 <= i < |t + [e]| && (t + [e])[i].Moves();
      assert t[i] == (t + [e])[i];
    }
  }

  /** The reads that prove a restoration, in their order. */
  function ProofReads(original: State, before: Census, content: Content): Trace {
    [ReadState(Returned(Some(original))), ReadEvidence(Returned(before)), ReadText(Returned(content.text)),
     ReadControls(Returned(content.controls)), ReadState(Returned(Some(original)))]
  }

  lemma ProofReadsProve(t: Trace, original: State, before: Census, content: Content)
    ensures var all := t + ProofReads(original, before, content);
            ContentBack(all, |t|, before, content) && StateBack(all, |t|, original)
  {
    var all, proof := t + ProofReads(original, before, content), ProofReads(original, before, content);
    assert all[|t|..] == proof;
    assert proof[0] in proof && proof[1] in proof && proof[2] in proof && proof[3] in proof;
    forall i | |t| <= i < |all| ensures !all[i].Moves() { assert all[i] == proof[i - |t|]; }
  }

  /** Setting the caret once more and reading it back keeps the proof. */
  lemma MoveAndReadKeeps(t: Trace, k: nat, original: State, before: Census, content: Content)
    requires k <= |t| && ContentBack(t, k, before, content)
    ensures var all := t + [Moved(Returned(())), ReadState(Returned(Some(original)))];
            ContentBack(all, k, before, content) && StateBack(all, |t| + 1, original)
  {
    var all := t + [Moved(Returned(())), ReadState(Returned(Some(original)))];
    assert all[k..] == t[k..] + [Moved(Returned(())), ReadState(Returned(Some(original)))];
    assert all[|t| + 1..] == [ReadState(Returned(Some(original)))];
  }

  // ------------------------------------------------------------ the step

  datatype Phase = Preflight | PreTarget | Native | Preservation | Restore

  datatype Outcome = Applied(result: string) | Escaped(error: Error)

  class GuardedStep {
    const editor: Editor
    var calls: nat
    var phase: Phase
    var issuedMutation: bool
    var guardVerified: bool
    var semanticRefused: bool
    var preeditIncomplete: bool
    ghost var trace: Trace

    constructor (editor: Editor)
      ensures this.editor == editor && Fresh()
    {
      this.editor := editor;
      calls, phase, trace := 0, Preflight, [];
      issuedMutation, guardVerified, semanticRefused, preeditIncomplete := false, false, false, false;
    }

    ghost predicate Fresh()
      reads this
    {
      calls == 0 && phase == Preflight && trace == [] && !issuedMutation && !guardVerified && !semanticRefused
          && !preeditIncomplete
    }

    /** What the flags mean for the calls made so far. */
    ghost predicate Truthful()
      reads this
    {
      && (issuedMutation <==> MutatorAnnounced(trace))
      && (Navigated(trace) ==> phase != Preflight)
      && calls == |trace| && AllAnswered(editor, trace)
    }

    /** Nothing untrusted has failed so far. */
    ghost predicate Going()
      reads this
    {
      FailuresTrusted(trace) && Truthful()
    }

    /** The last call may have failed; none came after. */
    ghost predicate Stopped()
      reads this
    {
      StopsAtFailure(trace) && Truthful()
    }

    /** The last call raised this. */
    ghost predicate LastRaised(e: Error)
      reads this
    {
      trace != [] && trace[|trace| - 1].Raises(e)
    }

    lemma StopHere()
      requires Going()
      ensures Stopped()
    {
      TrustedStops(trace);
    }

    lemma FreshGoes()
      requires Fresh()
      ensures Going() && Stopped()
    {
    }

    /** The proof of a refusal is complete. */
    method Conclude()
      requires Going()
      modifies this`guardVerified
      ensures Going() && Stopped() && guardVerified
    {
      guardVerified := true;
      TrustedStops(trace);
    }

    /** The phase moves on from preflight. */
    method Enter(next: Phase)
      requires Going() && next != Preflight
      modifies this`phase
      ensures Going() && Stopped() && phase == next
    {
      phase := next;
      TrustedStops(trace);
    }

    method ReadTargetState() returns (r: Response<Option<State>>)
      requires Going()
      modifies this`calls, this`trace
      ensures r == editor.state(old(calls)) && calls == old(calls) + 1
      ensures trace == old(trace) + [ReadState(r)] && Stopped()
              && (r.Raised? && r.error.Signal? ==> LastRaised(r.error))
          && (r.Returned? ==> Going())
    {
      r := editor.state(calls);
      ghost var e := ReadState(r);
      Noted(editor, trace, e);
      calls, trace := calls + 1, trace + [e];
    }

    /** checked_protection over _guard_protection: evidence that is unusable or incomplete is noted while still in
        preflight. */
    method ReadProtection() returns (r: Response<Census>)
      requires Going()
      modifies this`calls, this`trace, this`preeditIncomplete
      ensures trace == old(trace) + [ReadEvidence(r)] && Stopped()
          && (r.Raised? && r.error.Signal? ==> LastRaised(r.error)) && (r.Returned? ==> Going())
      ensures preeditIncomplete ==> old(preeditIncomplete) || (phase == Preflight && r == Raised(RuntimeFailure))
      ensures calls == old(calls) + 1
      ensures r.Returned? <==> Usable(editor.evidence(old(calls)))
      ensures editor.evidence(old(calls)).Raised? && editor.evidence(old(calls)).error.Signal? <==>
                r.Raised? && r.error.Signal?
      ensures r.Returned? ==> r.value == editor.evidence(old(calls)).value.census && Whole(r.value)
      ensures preeditIncomplete <==>
                old(preeditIncomplete) || (phase == Preflight && Incomplete(editor.evidence(old(calls))))
    {
      var raw := editor.evidence(calls);
      calls := calls + 1;
      if raw.Raised? {
        if raw.error.TextUnusable? {
          if phase == Preflight { preeditIncomplete := true; }
          r := Raised(RuntimeFailure);
        } else {
          r := Raised(raw.error);
        }
      } else if !raw.value.plain || !raw.value.exactFields {
        r := Raised(RuntimeFailure);
      } else if !raw.value.valid {
        r := Raised(OtherFailure("RuntimeError"));
      } else if !Whole(raw.value.census) {
        if phase == Preflight { preeditIncomplete := true; }
        r := Raised(RuntimeFailure);
      } else if !raw.value.placed {
        r := Raised(RuntimeFailure);
      } else {
        r := Returned(raw.value.census);
      }
      ghost var e := ReadEvidence(r);
      Noted(editor, trace, e);
      trace := trace + [e];
    }

    /** _preflight_census */
    method ReadPreflight() returns (r: Response<Content>)
      requires Going()
      modifies this`calls, this`trace
      ensures r == editor.preflight(old(calls)) && calls == old(calls) + 1
      ensures trace == old(trace) + [ReadContent(r)] && Stopped()
              && (r.Raised? && r.error.Signal? ==> LastRaised(r.error))
          && (r.Returned? || r.error.ControlLimit() ==> Going())
    {
      r := editor.preflight(calls);
      ghost var e := ReadContent(r);
      Noted(editor, trace, e);
      calls, trace := calls + 1, trace + [e];
    }

    method ReadTextHash() returns (r: Response<string>)
      requires Going()
      modifies this`calls, this`trace
      ensures r == editor.text(old(calls)) && calls == old(calls) + 1
      ensures trace == old(trace) + [ReadText(r)] && Stopped() && (r.Raised? && r.error.Signal? ==> LastRaised(r.error))
          && (r.Returned? ==> Going())
    {
      r := editor.text(calls);
      ghost var e := ReadText(r);
      Noted(editor, trace, e);
      calls, trace := calls + 1, trace + [e];
    }

    method ReadControlIds() returns (r: Response<seq<string>>)
      requires Going()
      modifies this`calls, this`trace
      ensures r == editor.controls(old(calls)) && calls == old(calls) + 1
      ensures trace == old(trace) + [ReadControls(r)] && Stopped()
          && (r.Raised? && r.error.Signal? ==> LastRaised(r.error)) && (r.Returned? ==> Going())
    {
      r := editor.controls(calls);
      ghost var e := ReadControls(r);
      Noted(editor, trace, e);
      calls, trace := calls + 1, trace + [e];
    }

    /** _set_pos, and select_text with its motion check. */
    method Move() returns (r: Response<()>)
      requires Going() && phase != Preflight
      modifies this`calls, this`trace
      ensures r == editor.motion(old(calls)) && calls == old(calls) + 1
      ensures trace == old(trace) + [Moved(r)] && Stopped() && (r.Raised? && r.error.Signal? ==> LastRaised(r.error))
          && (r.Returned? ==> Going())
    {
      r := editor.motion(calls);
      ghost var e := Moved(r);
      Noted(editor, trace, e);
      calls, trace := calls + 1, trace + [e];
    }

    method Find() returns (r: Response<Target>)
      requires Going() && phase != Preflight
      modifies this`calls, this`trace
      ensures r == editor.find(old(calls)) && calls == old(calls) + 1
      ensures trace == old(trace) + [Found(r)] && Stopped() && (r.Raised? && r.error.Signal? ==> LastRaised(r.error))
          && (r.Returned? || r.error == TargetNotFound(true) ==> Going())
    {
      r := editor.find(calls);
      ghost var e := Found(r);
      Noted(editor, trace, e);
      calls, trace := calls + 1, trace + [e];
    }

    /** apply_official_numbering_at_match with its two hooks. */
    method Number() returns (r: Response<string>)
      requires Going() && phase != Preflight && !issuedMutation && !semanticRefused
      modifies this`calls, this`trace, this`issuedMutation, this`semanticRefused
      ensures calls == old(calls) + 1 && NativeRun(issuedMutation, semanticRefused, r) == editor.number(old(calls))
      ensures trace == old(trace) + [Numbered(NativeRun(issuedMutation, semanticRefused, r))] && Stopped()
          && (r.Raised? ==> LastRaised(r.error))
      ensures r.Returned? || trace[|trace| - 1].Trusted() ==> Going()
    {
      var run := editor.number(calls);
      issuedMutation, semanticRefused := run.issued, run.semantic;
      r := run.ending;
      ghost var e := Numbered(run);
      Noted(editor, trace, e);
      calls, trace := calls + 1, trace + [e];
    }

    /** restore_proven_refusal: give caret and selection back, then read everything again and compare. */
    method RestoreProvenRefusal(original: State, before: Census, content: Content) returns (r: Response<()>)
      requires Going() && phase != Preflight
      modifies this`calls, this`trace, this`phase, this`preeditIncomplete
      ensures Stopped() && phase != Preflight && old(trace) <= trace
      ensures preeditIncomplete ==> old(preeditIncomplete)
      ensures r.Raised? && r.error.Signal? ==> LastRaised(r.error)
      ensures Calm(editor, original, before, content) ==> r.Returned?
      ensures r.Returned? ==>
                Going() &&
                exists k: nat ::
                  |old(trace)| <= k <= |trace| && ContentBack(trace, k, before, content)
                      && StateBack(trace, k, original)
    {
      hide Calm, ContentBack, StateBack, Going, Stopped, LastRaised, ProofReads;
      CalmAt(editor, original, before, content, calls);
      CalmAt(editor, original, before, content, calls + 1);
      StopHere();
      if !before.Complete() { return Raised(RuntimeFailure); }
      Enter(Restore);
      var _ :- Move();
      if original.selection.Some? {
        if original.CrossesLists() { return Raised(RuntimeFailure); }
        var _ :- Move();
      }
      ghost var moved := trace;
      r := ReadBack(original, before, content);
      if r.Returned? { ProofReadsProve(moved, original, before, content); }
    }

    /** The reads and comparisons of the restoration, with the caret back. */
    method ReadBack(original: State, before: Census, content: Content) returns (r: Response<()>)
      requires Going() && phase == Restore
      modifies this`calls, this`trace, this`phase, this`preeditIncomplete
      ensures Stopped() && phase != Preflight && old(trace) <= trace
      ensures preeditIncomplete ==> old(preeditIncomplete)
      ensures r.Raised? && r.error.Signal? ==> LastRaised(r.error)
      ensures Calm(editor, original, before, content) ==> r.Returned?
      ensures r.Returned? ==> Going() && trace == old(trace) + ProofReads(original, before, content)
    {
      hide Calm, Going, Stopped, LastRaised, Whole, State.CrossesLists;
      CalmAt(editor, original, before, content, calls);
      CalmAt(editor, original, before, content, calls + 1);
      var state :- ReadTargetState();
      if state != Some(original) { return Raised(RuntimeFailure); }
      Enter(Preservation);
      var census :- ReadProtection();
      if census != before { return Raised(RuntimeFailure); }
      ghost var t := trace;
      r := ReadContentBack(original, before, content);
      ghost var shown := [ReadState(Returned(Some(original))), ReadEvidence(Returned(before))];
      assert r.Returned? ==> trace == old(trace) + (shown + ProofReads(original, before, content)[2..]);
      assert old(trace) <= t <= trace;
    }

    /** The rest of the restoration's reads: text, controls, and the caret once more. */
    method ReadContentBack(original: State, before: Census, content: Content) returns (r: Response<()>)
      requires Going() && phase == Preservation
      modifies this`calls, this`trace
      ensures Stopped() && old(trace) <= trace
      ensures r.Raised? && r.error.Signal? ==> LastRaised(r.error)
      ensures Calm(editor, original, before, content) ==> r.Returned?
      ensures r.Returned? ==> Going() && trace == old(trace) + ProofReads(original, before, content)[2..]
    {
      hide Calm, Going, Stopped, LastRaised, Whole, State.CrossesLists;
      CalmAt(editor, original, before, content, calls);
      CalmAt(editor, original, before, content, calls + 1);
      CalmAt(editor, original, before, content, calls + 2);
      var text :- ReadTextHash();
      if text != content.text { return Raised(RuntimeFailure); }
      var controls :- ReadControlIds();
      if controls != content.controls { return Raised(RuntimeFailure); }
      var state :- ReadTargetState();
      if state != Some(original) { return Raised(RuntimeFailure); }
      r := Returned(());
    }

    /** _give_back: put caret and selection back and read them again. Whatever fails here is never reported as a
        refusal. */
    method GiveBack(original: State) returns (r: Response<()>)
      requires Going() && phase != Preflight
      modifies this`calls, this`trace
      ensures Stopped() && old(trace) <= trace && |trace| > |old(trace)|
      ensures r.Raised? ==> !r.error.NativeRefusal?
      ensures r.Raised? && r.error.Signal? ==> LastRaised(r.error)
      ensures r.Returned? ==> Going() && StateBack(trace, |trace| - 1, original)
    {
      hide Going, Stopped, LastRaised, Event.Moves;
      var moved := Move();
      if moved.Raised? { return Raised(Unproven(moved.error)); }
      if original.selection.Some? {
        if original.CrossesLists() { return Raised(RuntimeFailure); }
        moved := Move();
        if moved.Raised? { return Raised(Unproven(moved.error)); }
      }
      ghost var t := trace;
      var state := ReadTargetState();
      if state.Raised? { return Raised(Unproven(state.error)); }
      if state.value != Some(original) { return Raised(RuntimeFailure); }
      ReadAtEnd(t, original);
      r := Returned(());
    }

    /** _no_change_proof: evidence that cannot be read makes the proof fail, not a new refusal. */
    method NoChangeProof(before: Census) returns (r: Response<()>)
      requires Going() && phase != Preflight
      modifies this`calls, this`trace, this`preeditIncomplete
      ensures Stopped() && (r.Raised? ==> !r.error.NativeRefusal?)
      ensures r.Returned? <==> trace == old(trace) + [ReadEvidence(Returned(before))]
    {
      var census := ReadProtection();
      if census.Raised? { return Raised(Unproven(census.error)); }
      r := if census.value == before then Returned(()) else Raised(RuntimeFailure);
    }

    /** The reads before any navigation, with the one refusal they can prove: a control chain over the limit. */
    method FirstReads() returns (r: Response<(State, Census, Content)>)
      requires Fresh()
      modifies this
      ensures Stopped() && phase == Preflight && !issuedMutation && !semanticRefused
          && (r.Raised? && r.error.Signal? ==> LastRaised(r.error))
      ensures r.Raised? && guardVerified ==>
                r.error == CleanRefusal("control_enumeration_unavailable", true) && ReadTwice(trace)
      ensures r.Returned? ==>
                && Going() && !guardVerified && calls == 3 && !r.value.0.CrossesLists()
                && trace == [ReadState(Returned(Some(r.value.0))), ReadEvidence(Returned(r.value.1)),
                    ReadContent(Returned(r.value.2))]
      ensures r.Returned? ==> Whole(r.value.1)
      ensures preeditIncomplete ==> r.Raised? && trace != [] && Incomplete(editor.evidence(|trace| - 1))
      ensures preeditIncomplete <==> EvidenceRefuses(editor)
      ensures preeditIncomplete ==> r.Raised? && !r.error.Signal? && !guardVerified
      ensures guardVerified <==> ControlsRefuse(editor)
      ensures guardVerified ==> r == Raised(CleanRefusal("control_enumeration_unavailable", true))
      ensures Still(editor) ==> r.Returned? && CalmReads(editor, r.value.0, r.value.1, r.value.2)
    {
      hide CalmReads, Going, Stopped, LastRaised, Still, Error.ControlLimit, Whole, Incomplete;
      NotBoth(editor);
      FreshGoes();
      ghost var o, b, c := StillParts(editor);
      ReadsAt(editor, o, b, c, 0);
      ReadsAt(editor, o, b, c, 1);
      ReadsAt(editor, o, b, c, 2);
      var state :- ReadTargetState();
      if state.None? { return Raised(RuntimeFailure); }
      var original := state.value;
      if original.CrossesLists() { return Raised(RuntimeFailure); }
      var before :- ReadProtection();
      WholeParts(before);
      if !before.mandatory { return Raised(NativeRefusal("preservation_unprovable", true, false)); }
      var content := ReadPreflight();
      if content.Raised? {
        ErrorClasses(content.error);
        if !content.error.ControlLimit() { return Raised(content.error); }
        var refusal := RefuseLimit(original, before);
        return Raised(refusal);
      }
      r := Returned((original, before, content.value));
    }

    /** The refusal of a control chain over the limit: state and evidence are read again and must be as they were. */
    method RefuseLimit(original: State, before: Census) returns (e: Error)
      requires Going() && phase == Preflight && !guardVerified && !preeditIncomplete && Whole(before) && |trace| == 3
      requires trace[0] == ReadState(Returned(Some(original))) && trace[1] == ReadEvidence(Returned(before))
      modifies this`calls, this`trace, this`preeditIncomplete, this`guardVerified
      ensures Stopped() && (e.Signal? ==> LastRaised(e))
      ensures guardVerified ==> e == CleanRefusal("control_enumeration_unavailable", true) && ReadTwice(trace)
      ensures preeditIncomplete ==> trace != [] && Incomplete(editor.evidence(|trace| - 1))
      ensures preeditIncomplete <==>
                editor.state(3) == Returned(Some(original)) && Incomplete(editor.evidence(4))
      ensures preeditIncomplete ==> !e.Signal? && !guardVerified
      ensures guardVerified <==> && editor.state(3) == Returned(Some(original)) && Usable(editor.evidence(4))
                                 && editor.evidence(4).value.census == before
    {
      NotBoth(editor);
      hide Going, Stopped, LastRaised, Whole, Incomplete;
      AtStep();
      var state := ReadTargetState();
      if state.Raised? { return state.error; }
      if state.value != Some(original) { return RuntimeFailure; }
      var again := ReadProtection();
      if again.Raised? { return again.error; }
      if again.value != before { return RuntimeFailure; }
      Conclude();
      e := CleanRefusal("control_enumeration_unavailable", true);
    }

    lemma AtStep()
      requires Going()
      ensures calls == |trace|
    {
    }

    /** The strict finder; its exact "not found" becomes a refusal once the restoration is proven. */
    method FindTarget(original: State, before: Census, content: Content, expectedPage: int) returns (r: Response<()>)
      requires Going() && phase == PreTarget && !guardVerified && !issuedMutation
              && FirstReadsAre(original, before, content)
      modifies this`calls, this`trace, this`phase, this`preeditIncomplete, this`guardVerified
      ensures Stopped() && phase != Preflight && (r.Raised? && r.error.Signal? ==> LastRaised(r.error))
      ensures r.Raised? && guardVerified ==>
                r.error == NativeRefusal("target_not_found", true, false) && Restored(trace)
      ensures r.Returned? ==> Going() && !guardVerified && calls == old(calls) + 1
      ensures r.Returned? ==> trace == old(trace) + [Found(Returned(Target(true, Some(expectedPage))))]
      ensures Calm(editor, original, before, content) && editor.find(old(calls)) == Raised(TargetNotFound(true)) ==>
                r == Raised(NativeRefusal("target_not_found", true, false)) && guardVerified
      ensures editor.find(old(calls)) == Returned(Target(true, Some(expectedPage))) ==> r.Returned?
    {
      hide Calm, Going, Stopped, LastRaised, ContentBack, StateBack, Restored;
      var found := Find();
      if found.Raised? {
        if found.error != TargetNotFound(true) { return Raised(found.error); }
        var _ :- RestoreProvenRefusal(original, before, content);
        ghost var k: nat :| k <= |trace| && ContentBack(trace, k, before, content) && StateBack(trace, k, original);
        RestoredBy(trace, original, before, content, k, k);
        Conclude();
        return Raised(NativeRefusal("target_not_found", true, false));
      }
      if !found.value.plain || found.value.page != Some(expectedPage) { return Raised(RuntimeFailure); }
      r := Returned(());
    }

    ghost predicate FirstReadsAre(original: State, before: Census, content: Content)
      reads this
    {
      Whole(before) && [ReadState(Returned(Some(original))), ReadEvidence(Returned(before)),
          ReadContent(Returned(content))] <= trace
    }

    /** The native call; a semantic refusal escapes as such only when its hook fired, no mutator was announced and the
        restoration is proven. */
    method NumberTarget(original: State, before: Census, content: Content) returns (r: Response<string>)
      requires Going() && phase == Native && !guardVerified && !issuedMutation && !semanticRefused
          && FirstReadsAre(original, before, content)
      modifies this
      ensures Stopped() && phase != Preflight && (r.Raised? && r.error.Signal? ==> LastRaised(r.error))
      ensures r.Raised? && guardVerified ==>
                r.error.SemanticRefusal? && r.error.exact && !issuedMutation && Restored(trace)
      ensures r.Raised? && issuedMutation ==> trace != [] && trace[|trace| - 1].Numbered?
      ensures old(trace) <= trace
      ensures r.Returned? ==> Going() && trace == old(trace) + [Numbered(NativeRun(issuedMutation, semanticRefused, r))]
      ensures var run := editor.number(old(calls));
              && (run.ending.Returned? ==> r == run.ending)
              && (Calm(editor, original, before, content) && SemanticRun(run) ==>
                    r == Raised(SemanticRefusal(run.ending.error.code, true)) && guardVerified && !issuedMutation)
    {
      r := Number();
      if r.Raised? && r.error.NativeRefusal? {
        if !semanticRefused || issuedMutation || !r.error.exact { return; }
        var code := r.error.code;
        assert !trace[|trace| - 1].run.issued && trace[|trace| - 1].Trusted();
        r := SemanticRefused(original, before, content, code);
      }
    }

    /** The proof and the final caret of a semantic refusal. */
    method SemanticRefused(original: State, before: Census, content: Content, code: string)
        returns (r: Response<string>)
      requires Going() && phase == Native && !guardVerified && !issuedMutation
              && FirstReadsAre(original, before, content)
      modifies this`calls, this`trace, this`phase, this`preeditIncomplete, this`guardVerified
      ensures Stopped() && phase != Preflight && old(trace) <= trace
              && (r.Raised? && r.error.Signal? ==> LastRaised(r.error))
      ensures r.Raised? && (guardVerified ==> r.error == SemanticRefusal(code, true) && Restored(trace))
      ensures Calm(editor, original, before, content) ==> r == Raised(SemanticRefusal(code, true)) && guardVerified
    {
      hide Calm, Going, Stopped, LastRaised, ContentBack, StateBack, Restored;
      var _ :- RestoreProvenRefusal(original, before, content);
      ghost var k: nat :| k <= |trace| && ContentBack(trace, k, before, content) && StateBack(trace, k, original);
      if original.selection.None? {
        ghost var t := trace;
        CalmAt(editor, original, before, content, calls);
        CalmAt(editor, original, before, content, calls + 1);
        var _ :- Move();
        var state :- ReadTargetState();
        if state != Some(original) { return Raised(RuntimeFailure); }
        MoveAndReadKeeps(t, k, original, before, content);
        assert trace == t + [Moved(Returned(())), ReadState(Returned(Some(original)))];
        RestoredBy(trace, original, before, content, k, |t| + 1);
      } else {
        RestoredBy(trace, original, before, content, k, k);
      }
      Conclude();
      r := Raised(SemanticRefusal(code, true));
    }

    /** The guarded block: first reads, finder, native call. */
    method Guarded(expectedPage: int) returns (r: Response<(State, string)>)
      requires Fresh()
      modifies this
      ensures Stopped() && (r.Raised? && r.error.Signal? ==> LastRaised(r.error))
      ensures r.Raised? && guardVerified ==>
          r.error.Refusal() && !issuedMutation && (if phase == Preflight then ReadTwice(trace) else Restored(trace))
      ensures r.Raised? && guardVerified ==> r.error != CleanRefusal("preservation_unprovable", true)
      ensures r.Raised? && issuedMutation ==> trace != [] && trace[|trace| - 1].Numbered?
      ensures r.Returned? ==> Going() && phase != Preflight && |trace| == 5
                              && trace[|trace| - 1].Numbered? && trace[|trace| - 1].run.ending == Returned(r.value.1)
      ensures issuedMutation || r.Returned? ==> OnTarget(trace, expectedPage)
      ensures preeditIncomplete && phase == Preflight ==> trace != [] && Incomplete(editor.evidence(|trace| - 1))
      ensures preeditIncomplete && phase == Preflight <==> EvidenceRefuses(editor)
      ensures preeditIncomplete && phase == Preflight ==>
                r.Raised? && !r.error.Signal? && !guardVerified && !issuedMutation
      ensures r.Raised? && guardVerified && r.error.CleanRefusal? <==> ControlsRefuse(editor)
      ensures ControlsRefuse(editor) ==>
                r == Raised(CleanRefusal("control_enumeration_unavailable", true)) && !issuedMutation
      ensures Still(editor) ==> SettledBy(editor, expectedPage, r, guardVerified && !issuedMutation)
    {
      hide CalmReads, Moving, Still, Restored, ReadTwice, Whole, Incomplete, FailuresTrusted, AllAnswered,
          MutatorAnnounced;
      var first :- FirstReads();
      var (original, before, content) := first;
      phase := PreTarget;
      var _ :- FindTarget(original, before, content, expectedPage);
      phase := Native;
      ghost var t := trace;
      var result :- NumberTarget(original, before, content);
      r := Returned((original, result));
    }

    /** The native call returned success and only giving the caret back failed. */
    ghost predicate OnlyCaretFailed()
      reads this
    {
      && |trace| >= 2 && trace[|trace| - 2].Numbered? && trace[|trace| - 2].run.ending.Returned?
      && trace[|trace| - 1].Moved? && trace[|trace| - 1].Failed()
    }

    /** _bundle_official_numbering_apply */
    method Apply(valid: bool, expectedPage: int) returns (o: Outcome)
      requires Fresh()
      modifies this
      // No false "nothing changed": a refusal escapes only if no mutator was announced, and the caret,
      // selection and evidence were read again and found back; when nothing ever moved, they were read twice
      // alike or the evidence was incomplete.
      ensures o.Escaped? && o.error.Refusal() ==>
                && !MutatorAnnounced(trace)
                && (Restored(trace) || (!Navigated(trace)
                    && (ReadTwice(trace) || o.error == CleanRefusal("preservation_unprovable", true))))
      // Once a mutator was announced, an ordinary exception says that the change may persist, except after a
      // complete success.
      ensures MutatorAnnounced(trace) && o.Escaped? && !o.error.Signal? ==>
                o.error == if OnlyCaretFailed() then RuntimeFailure else MutationError(true)
      // A mutator is announced, and success reported, only over whole evidence and with the text found on the
      // expected page.
      ensures MutatorAnnounced(trace) || o.Applied? ==> OnTarget(trace, expectedPage)
      // Evidence is called incomplete only when the last call was its read and returned what cannot serve.
      ensures o == Escaped(CleanRefusal("preservation_unprovable", true)) ==>
          trace != [] && Incomplete(editor.evidence(|trace| - 1))
      // The two clean refusals, decided by the answers of the editor to the first calls.
      ensures o == Escaped(CleanRefusal("preservation_unprovable", true)) <==> valid && EvidenceRefuses(editor)
      ensures o == Escaped(CleanRefusal("control_enumeration_unavailable", true)) <==> valid && ControlsRefuse(editor)
      // The flag and the trace agree: every event is what the editor answered to that call.
      ensures AllAnswered(editor, trace)
      // A failed call is the last one, unless it is one of the three trusted refusals; signals pass unchanged.
      ensures StopsAtFailure(trace)
      ensures o.Escaped? && o.error.Signal? ==> trace != [] && trace[|trace| - 1].Raises(o.error)
      // With an editor that keeps still, absence and semantic refusals are reported as refusals and success as success.
      ensures valid && Still(editor) ==> Settles(editor, expectedPage, o)
      ensures
        (&& valid
         && Still(editor)
         && editor.find(3) == Returned(Target(true, Some(expectedPage)))
         && editor.number(4).ending.Returned?) ==>
          |trace| == 6 && trace[4].Numbered? && trace[5].Moved?
    {
      hide Restored, ReadTwice, Still, Moving, FailuresTrusted, StopsAtFailure, MutatorAnnounced, Navigated,
          SemanticRun, AllAnswered, Incomplete, Whole, ControlsRefuse, EvidenceRefuses;
      NothingYet(editor);
      if !valid { return Escaped(RuntimeFailure); }
      var r := Guarded(expectedPage);
      if r.Raised? {
        if r.error.Signal? { return Escaped(r.error); }
        if guardVerified && !issuedMutation && r.error.Refusal() { return Escaped(r.error); }
        if issuedMutation { return Escaped(MutationError(true)); }
        if preeditIncomplete && phase == Preflight { return Escaped(CleanRefusal("preservation_unprovable", true)); }
        return Escaped(RuntimeFailure);
      }
      ghost var t := trace;
      var back := Move();
      assert trace[|trace| - 2] == t[|t| - 1] && trace[|trace| - 1] == Moved(back);
      if back.Raised? {
        return Escaped(if back.error.Signal? then back.error else RuntimeFailure);
      }
      o := Applied(r.value.1);
    }
  }

  /** An editor that keeps still except that its caret cannot be set back after a complete success that announced its
      mutator. */
  function LosingCaret(page: int): Editor {
    Editor((n: nat) => Returned(Some(State("caret", None))),
        (n: nat) => Returned(Raw(true, true, true, true, Census("", true, true, true))),
           (n: nat) => Returned(Content("", [])), (n: nat) => Returned(""), (n: nat) => Returned([]),
           (n: nat) => Returned(Target(true, Some(page))), (n: nat) => NativeRun(true, false, Returned("done")),
           (n: nat) => Raised(OtherFailure("motion")))
  }

  /** With it the mutator was announced, and yet a plain runtime error leaves the step. */
  method CaretCanBeLost(page: int) returns (step: GuardedStep, o: Outcome)
    ensures fresh(step) && MutatorAnnounced(step.trace) && step.OnlyCaretFailed() && o == Escaped(RuntimeFailure)
  {
    var editor := LosingCaret(page);
    step := new GuardedStep(editor);
    assert CalmReads(editor, State("caret", None), Census("", true, true, true), Content("", []));
    o := step.Apply(true, page);
    assert Answered(editor, step.trace[4], 4) && Answered(editor, step.trace[5], 5);
  }

  /** An editor that keeps still, with given answers of its finder and its numbering call. */
  function Quiet(found: Response<Target>, run: NativeRun): Editor {
    Editor((n: nat) => Returned(Some(State("caret", None))),
           (n: nat) => Returned(Raw(true, true, true, true, Census("", true, true, true))),
           (n: nat) => Returned(Content("", [])), (n: nat) => Returned(""), (n: nat) => Returned([]),
           (n: nat) => found, (n: nat) => run, (n: nat) => Returned(()))
  }

  lemma QuietIsCalm(found: Response<Target>, run: NativeRun)
    ensures Calm(Quiet(found, run), State("caret", None), Census("", true, true, true), Content("", []))
    ensures Still(Quiet(found, run)) && Moving(Quiet(found, run))
  {
    assert CalmReads(Quiet(found, run), State("caret", None), Census("", true, true, true), Content("", []));
  }

  /** One run of the step with such an editor. */
  method Quietly(page: int, found: Response<Target>, run: NativeRun) returns (o: Outcome)
    ensures found == Raised(TargetNotFound(true)) ==> o == Escaped(NativeRefusal("target_not_found", true, false))
    ensures found == Returned(Target(true, Some(page))) ==>
              && (run.ending.Returned? ==> o == Applied(run.ending.value))
              && (SemanticRun(run) ==> o == Escaped(SemanticRefusal(run.ending.error.code, true)))
  {
    QuietIsCalm(found, run);
    var step := new GuardedStep(Quiet(found, run));
    o := step.Apply(true, page);
  }

  /** What leaves the step when the text is not there, when the native call refuses for what it found, and when it
      succeeds. */
  method QuietOutcomes(page: int, code: string, result: string, issued: bool)
      returns (o: Outcome, p: Outcome, q: Outcome)
    ensures o == Escaped(NativeRefusal("target_not_found", true, false))
    ensures p == Escaped(SemanticRefusal(code, true))
    ensures q == Applied(result)
  {
    var here := Returned(Target(true, Some(page)));
    var done := NativeRun(issued, false, Returned(result));
    o := Quietly(page, Raised(TargetNotFound(true)), done);
    p := Quietly(page, here, NativeRun(false, true, Raised(NativeRefusal(code, true, false))));
    q := Quietly(page, here, done);
  }

  /** A semantic refusal of the native call that changed nothing. */
  predicate SemanticRun(run: NativeRun) {
    run.semantic && !run.issued && run.ending.Raised? && run.ending.error.NativeRefusal? && run.ending.error.exact
  }

  /** How the guarded block ends with an editor that keeps still; the refusals need its motions too. */
  ghost predicate SettledBy(editor: Editor, expectedPage: int, r: Response<(State, string)>, proven: bool) {
    var found, run := editor.find(3), editor.number(4);
    && (Moving(editor) && found == Raised(TargetNotFound(true)) ==>
        r == Raised(NativeRefusal("target_not_found", true, false)) && proven)
    && (found == Returned(Target(true, Some(expectedPage))) ==>
          && (run.ending.Returned? ==> r.Returned? && r.value.1 == run.ending.value)
          && (Moving(editor) && SemanticRun(run) ==>
             r == Raised(SemanticRefusal(run.ending.error.code, true)) && proven))
  }

  ghost predicate Settles(editor: Editor, expectedPage: int, o: Outcome) {
    var found, run := editor.find(3), editor.number(4);
    && (Moving(editor) && found == Raised(TargetNotFound(true)) ==>
       o == Escaped(NativeRefusal("target_not_found", true, false)))
    && (found == Returned(Target(true, Some(expectedPage))) ==>
          && (run.ending.Returned? ==> o == AfterSuccess(run.ending.value, editor.motion(5)))
          && (Moving(editor) && SemanticRun(run) ==> o == Escaped(SemanticRefusal(run.ending.error.code, true))))
  }

  /** A complete native success, once the caret was set back or could not be. */
  function AfterSuccess(result: string, back: Response<()>): Outcome {
    if back.Returned? then Applied(result) else Escaped(if back.error.Signal? then back.error else RuntimeFailure)
  }

  lemma NothingYet(editor: Editor)
    ensures !MutatorAnnounced([]) && StopsAtFailure([]) && AllAnswered(editor, [])
  {
  }

  /** A refusal raised while proving is not a refusal. */
  function Unproven(e: Error): Error {
    if e.NativeRefusal? then RuntimeFailure else e
  }

  lemma ReadAtEnd(t: Trace, original: State)
    ensures StateBack(t + [ReadState(Returned(Some(original)))], |t|, original)
  {
    assert (t + [ReadState(Returned(Some(original)))])[|t|..] == [ReadState(Returned(Some(original)))];
  }

  lemma RestoredBy(t: Trace, original: State, before: Census, content: Content, k: nat, m: nat)
    requires Whole(before)
        && [ReadState(Returned(Some(original))), ReadEvidence(Returned(before)), ReadContent(Returned(content))] <= t
    requires k <= |t| && ContentBack(t, k, before, content) && m <= |t| && StateBack(t, m, original)
    ensures Restored(t)
  {
    assert t[0] == ReadState(Returned(Some(original))) && t[1] == ReadEvidence(Returned(before))
        && t[2] == ReadContent(Returned(content));
  }

  lemma WholeParts(c: Census)
    ensures Whole(c) <==> c.mandatory && c.digests && c.restarts
  {
  }

  /** Evidence is not both usable and incomplete. */
  lemma NotBoth(editor: Editor)
    ensures forall n :: !(Usable(editor.evidence(n)) && Incomplete(editor.evidence(n)))
    ensures forall n :: Incomplete(editor.evidence(n)) && editor.evidence(n).Raised? ==>
              editor.evidence(n).error == TextUnusable
  {
  }

  lemma Noted(editor: Editor, t: Trace, e: Event)
    requires FailuresTrusted(t) && AllAnswered(editor, t) && Answered(editor, e, |t|)
    ensures AllAnswered(editor, t + [e])
    ensures StopsAtFailure(t + [e]) && (!e.Failed() || e.Trusted() ==> FailuresTrusted(t + [e]))
    ensures MutatorAnnounced(t + [e]) <==> MutatorAnnounced(t) || (e.Numbered? && e.run.issued)
    ensures Navigated(t + [e]) <==> Navigated(t) || e.Moves()
  {
    TrustedMore(t, e);
    MutatorMore(t, e);
    NavigatedMore(t, e);
  }
}
