/**
 * The "Create New Request" form controller: an ordered list of link inputs,
 * a parallel list of per-field error texts and one whole-form error text,
 * changed by four handlers (add a field, edit a field, delete a field,
 * submit). Each handler is one atomic transition from a `State` to a new
 * `State`; submit also returns the batch it would send, standing in for the
 * `alert` that displays it.
 */
module RequestForm {
  import opened Wrappers
  import opened JsArray
  import opened Text
  import opened UrlPattern

  /** The most input fields the form offers. */
  const MaxInputs: nat := 10

  /** Per-field text for a link that fails the pattern. */
  const InvalidUrlMessage: string := "Invalid Google Drive URL"

  /** Whole-form text when the batch is refused. */
  const FormErrorMessage: string := "Please ensure all URLs are valid Google Drive links."

  /** One accepted link: a synthetic ordinal label and the link's last path segment. */
  datatype ValidUrl = ValidUrl(url: string, value: string)

  /** The component's three pieces of state. */
  datatype State = State(inputs: seq<string>, errors: seq<string>, formError: string)

  /** The input list and the error list have one entry per field. */
  predicate Parallel(st: State) {
    |st.inputs| == |st.errors|
  }

  /** What every reachable state satisfies. */
  predicate Invariant(st: State) {
    Parallel(st) && |st.inputs| <= MaxInputs
  }

  /** The state on first render: one empty field, no errors. */
  function Initial(): (st: State)
    ensures Invariant(st)
    ensures |st.inputs| == 1 && st.inputs[0] == "" && st.errors[0] == ""
    ensures st.formError == ""
  {
    State([""], [""], "")
  }

  /**
   * `handleAddUrl`: one more empty field (and empty error slot) while fewer
   * than `MaxInputs` fields exist; otherwise nothing happens.
   */
  function AddUrl(st: State): (r: State)
    ensures |st.inputs| < MaxInputs ==> |r.inputs| == |st.inputs| + 1 && |r.errors| == |st.errors| + 1
    ensures |st.inputs| < MaxInputs ==> r.inputs[|st.inputs|] == "" && r.errors[|st.errors|] == ""
    ensures |st.inputs| >= MaxInputs ==> r == st
    ensures r.inputs[..|st.inputs|] == st.inputs && r.errors[..|st.errors|] == st.errors
    ensures r.formError == st.formError
    ensures Parallel(st) ==> Parallel(r)
    ensures |st.inputs| <= MaxInputs ==> |r.inputs| <= MaxInputs
  {
    if |st.inputs| < MaxInputs then
      State(st.inputs + [""], st.errors + [""], st.formError)
    else
      st
  }

  /**
   * `handleInputChange`: the field at `index` gets `text` and its error is
   * cleared; no other field, error or the form error changes. The view only
   * passes the position of a field it is showing.
   */
  function UpdateInput(st: State, index: int, text: string): (r: State)
    requires 0 <= index < |st.inputs| && index < |st.errors|
    ensures |r.inputs| == |st.inputs| && |r.errors| == |st.errors|
    ensures r.inputs[index] == text && r.errors[index] == ""
    ensures forall k :: 0 <= k < |st.inputs| && k != index ==> r.inputs[k] == st.inputs[k]
    ensures forall k :: 0 <= k < |st.errors| && k != index ==> r.errors[k] == st.errors[k]
    ensures r.formError == st.formError
  {
    State(Assign(st.inputs, index, text), Assign(st.errors, index, ""), st.formError)
  }

  /**
   * `handleDeleteInput`: both lists lose the entry at `index`, the rest keep
   * their order. Nothing stops the last field going; a position outside a
   * list leaves that list as it is.
   */
  function DeleteInput(st: State, index: int): (r: State)
    ensures 0 <= index < |st.inputs| ==> r.inputs == st.inputs[..index] + st.inputs[index + 1..]
    ensures 0 <= index < |st.errors| ==> r.errors == st.errors[..index] + st.errors[index + 1..]
    ensures !(0 <= index < |st.inputs|) ==> r.inputs == st.inputs
    ensures !(0 <= index < |st.errors|) ==> r.errors == st.errors
    ensures r.formError == st.formError
    ensures Parallel(st) ==> Parallel(r)
  {
    State(FilterOutIndex(st.inputs, index), FilterOutIndex(st.errors, index), st.formError)
  }

  /** The error text the submit scan writes for one field. */
  function FieldMessage(url: string): string {
    if ValidateUrl(url) then "" else InvalidUrlMessage
  }

  /** The `entry-<n>` label of the field at 0-based position `k`. */
  function EntryLabel(k: nat): string {
    "entry-" + Decimal(k + 1)
  }

  /** The record the scan pushes for the field at position `k`. */
  function Entry(inputs: seq<string>, k: nat): ValidUrl
    requires k < |inputs|
  {
    ValidUrl(EntryLabel(k), LastSegment(inputs[k]))
  }

  /**
   * The `validUrls` list after the scan has visited the first `n` inputs:
   * one record pushed per valid input, in order. It is as long as the
   * prefix exactly when every input of the prefix is valid, and then holds
   * the record of each position.
   */
  function CollectValid(inputs: seq<string>, n: nat): (acc: seq<ValidUrl>)
    requires n <= |inputs|
    ensures |acc| <= n
    ensures |acc| == n <==> forall k :: 0 <= k < n ==> ValidateUrl(inputs[k])
    ensures |acc| == n ==> forall k :: 0 <= k < n ==> acc[k] == Entry(inputs, k)
    decreases n
  {
    if n == 0 then []
    else
      var acc := CollectValid(inputs, n - 1);
      if ValidateUrl(inputs[n - 1]) then acc + [Entry(inputs, n - 1)] else acc
  }

  /**
   * `updatedErrors` after the scan has visited the first `n` inputs: each
   * visited position holds its field message; positions past the inputs
   * keep their old text.
   */
  function ScanErrors(inputs: seq<string>, errors: seq<string>, n: nat): (es: seq<string>)
    requires n <= |inputs|
    ensures |es| == if n <= |errors| then |errors| else n
    ensures forall k :: 0 <= k < n ==> es[k] == FieldMessage(inputs[k])
    ensures forall k :: n <= k < |errors| ==> es[k] == errors[k]
    decreases n
  {
    if n == 0 then errors
    else Assign(ScanErrors(inputs, errors, n - 1), n - 1, FieldMessage(inputs[n - 1]))
  }

  /** What a submit produces: the next state and the batch sent, if any. */
  datatype Submission = Submission(state: State, batch: Option<seq<ValidUrl>>)

  /** Every input is valid and there is at least one. */
  predicate AllValid(inputs: seq<string>) {
    |inputs| > 0 && forall k :: 0 <= k < |inputs| ==> ValidateUrl(inputs[k])
  }

  /**
   * `handleSaveUrls`: checks every input. When all are valid (and there is
   * at least one) the batch of `entry-<n>` records is sent and the form goes
   * back to one empty field; otherwise nothing is sent, the inputs stay, the
   * form error is set and each field shows whether it failed.
   */
  function SaveUrls(st: State): (r: Submission)
    ensures r.batch.Some? <==> AllValid(st.inputs)
    ensures r.batch.Some? ==>
      && |r.batch.value| == |st.inputs|
      && (forall k :: 0 <= k < |st.inputs| ==>
            r.batch.value[k] == Entry(st.inputs, k))
      && r.state == State([""], [""], "")
    ensures r.batch.None? ==>
      && r.state.inputs == st.inputs
      && r.state.formError == FormErrorMessage
      && |r.state.errors| == (if |st.inputs| <= |st.errors| then |st.errors| else |st.inputs|)
      && (forall k :: 0 <= k < |st.inputs| ==>
            r.state.errors[k] == FieldMessage(st.inputs[k]))
      && (forall k :: |st.inputs| <= k < |st.errors| ==> r.state.errors[k] == st.errors[k])
    ensures Parallel(st) ==> Parallel(r.state)
  {
    var validUrls := CollectValid(st.inputs, |st.inputs|);
    var updatedErrors := ScanErrors(st.inputs, st.errors, |st.inputs|);
    if |validUrls| == |st.inputs| && |validUrls| > 0 then
      Submission(State([""], [""], ""), Some(validUrls))
    else
      Submission(State(st.inputs, updatedErrors, FormErrorMessage), None)
  }

  /** Distinct positions get distinct `entry-<n>` labels. */
  lemma EntryLabelInjective(i: nat, j: nat)
    requires EntryLabel(i) == EntryLabel(j)
    ensures i == j
  {
    assert Decimal(i + 1) == EntryLabel(i)[6..];
    assert Decimal(j + 1) == EntryLabel(j)[6..];
    DecimalInjective(i + 1, j + 1);
  }

  /** An accepted link contains a `/`, so its last segment is a proper suffix. */
  lemma ValidUrlHasSlash(s: string)
    requires ValidateUrl(s)
    ensures !Excludes(s, '/')
  {
    MatchFromValid(s);
    var i: nat, j: nat :| i < |Schemes| && j < |Hosts| && MatchesWith(s, Schemes[i], Hosts[j]);
    var lead := Schemes[i] + Hosts[j] + "/";
    assert s[|lead| - 1] == lead[|lead| - 1];
  }

  /** The records of a sent batch carry pairwise distinct labels. */
  lemma EmittedLabelsDistinct(st: State)
    requires AllValid(st.inputs)
    ensures var b := SaveUrls(st).batch.value;
      forall i, j :: 0 <= i < j < |b| ==> b[i].url != b[j].url
  {
    var b := SaveUrls(st).batch.value;
    forall i, j | 0 <= i < j < |b|
      ensures b[i].url != b[j].url
    {
      if b[i].url == b[j].url {
        EntryLabelInjective(i, j);
      }
    }
  }

  /**
   * The value recorded for an accepted link is the text after its last
   * `/`, and a proper suffix of the link.
   */
  lemma AcceptedLinkValue(link: string)
    requires ValidateUrl(link)
    ensures IsLastSegment(link, LastSegment(link))
    ensures |LastSegment(link)| < |link|
  {
    LastSegmentIsLast(link);
    ValidUrlHasSlash(link);
  }

  /** A user action on the form; edits and deletions name a field position. */
  datatype Action = Add | Update(index: int, text: string) | Delete(index: int) | Submit

  /** The view only offers an edit for a field it shows. */
  predicate Enabled(st: State, a: Action) {
    a.Update? ==> 0 <= a.index < |st.inputs| && a.index < |st.errors|
  }

  /** The handler the view runs for an action. */
  function Step(st: State, a: Action): State
    requires Enabled(st, a)
  {
    match a
    case Add => AddUrl(st)
    case Update(index, text) => UpdateInput(st, index, text)
    case Delete(index) => DeleteInput(st, index)
    case Submit => SaveUrls(st).state
  }

  /** Runs the actions in order; `None` if one of them is not on offer. */
  function Run(st: State, actions: seq<Action>): Option<State>
    decreases |actions|
  {
    if |actions| == 0 then Some(st)
    else if Enabled(st, actions[0]) then Run(Step(st, actions[0]), actions[1..])
    else None
  }

  /** Every handler keeps the two lists parallel and at most `MaxInputs` long. */
  lemma StepKeepsInvariant(st: State, a: Action)
    requires Invariant(st) && Enabled(st, a)
    ensures Invariant(Step(st, a))
  {
  }

  /** Any sequence of handlers keeps the invariant. */
  lemma {:induction false} RunKeepsInvariant(st: State, actions: seq<Action>)
    requires Invariant(st)
    ensures Run(st, actions).Some? ==> Invariant(Run(st, actions).value)
    decreases |actions|
  {
    if |actions| > 0 && Enabled(st, actions[0]) {
      StepKeepsInvariant(st, actions[0]);
      RunKeepsInvariant(Step(st, actions[0]), actions[1..]);
    }
  }

  /**
   * From the first render, however the user adds, edits, deletes and
   * submits, the input and error lists stay the same length and the form
   * never holds more than `MaxInputs` fields.
   */
  lemma ReachableInvariant(actions: seq<Action>)
    ensures Run(Initial(), actions).Some? ==> Invariant(Run(Initial(), actions).value)
  {
    RunKeepsInvariant(Initial(), actions);
  }

  /** A form holding one valid link sends it as `entry-1` with its last segment, and resets. */
  lemma SubmitSingleValidLink(link: string)
    requires ValidateUrl(link)
    ensures SaveUrls(State([link], [""], "")) ==
      Submission(Initial(), Some([ValidUrl("entry-1", LastSegment(link))]))
  {
    var st := State([link], [""], "");
    assert AllValid(st.inputs);
    var b := SaveUrls(st).batch.value;
    assert |b| == 1 && b[0] == Entry([link], 0);
    assert EntryLabel(0) == "entry-1" by {
      assert Decimal(1) == "1";
    }
    assert b == [ValidUrl("entry-1", LastSegment(link))];
  }

  /** A form holding one invalid link sends nothing; the field and the form show errors. */
  lemma SubmitSingleInvalidLink(link: string)
    requires !ValidateUrl(link)
    ensures SaveUrls(State([link], [""], "")) ==
      Submission(State([link], [InvalidUrlMessage], FormErrorMessage), None)
  {
    var r := SaveUrls(State([link], [""], ""));
    assert r.state.errors == [InvalidUrlMessage];
  }

  /**
   * A valid link followed by an invalid one: partial validity is not
   * partial acceptance, so nothing is sent and only the second field
   * reports an error.
   */
  lemma SubmitValidThenInvalid(good: string, bad: string)
    requires ValidateUrl(good) && !ValidateUrl(bad)
    ensures SaveUrls(State([good, bad], ["", ""], "")) ==
      Submission(State([good, bad], ["", InvalidUrlMessage], FormErrorMessage), None)
  {
    var r := SaveUrls(State([good, bad], ["", ""], ""));
    assert r.state.errors == ["", InvalidUrlMessage];
  }

  /** Submitting an empty form sends nothing and sets the form error. */
  lemma SubmitEmptyForm()
    ensures SaveUrls(State([], [], "")) == Submission(State([], [], FormErrorMessage), None)
  {
  }
}
