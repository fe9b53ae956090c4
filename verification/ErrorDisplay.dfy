/** The form groups of the contact form and what the submit handler does to them: it clears
    every group's `error` class, then calls `showError` for each failing field, which marks
    the field's group and replaces its error message by a fresh one appended at the end. */
module ErrorDisplay {
  import opened Wrappers
  import opened Validation

  /** A child of a form group: an `.error-message` div carrying its text, or any other
      element (label, input, select), identified by name. */
  datatype Node = ErrorMessage(text: string) | Element(name: string)

  /** A `.form-group` wrapping the control whose element id is `fieldId`; `error` is the
      group's `error` class. */
  datatype Group = Group(fieldId: string, children: seq<Node>, error: bool)

  /** The form after a submit attempt, and whether the handler goes on to submit. */
  datatype Attempt = Attempt(groups: seq<Group>, proceeds: bool)

  /** `document.getElementById(id).closest('.form-group')`: the first group, in document
      order, whose control has that id, or None when there is no such control. */
  function FindGroup(form: seq<Group>, id: string): (r: Option<nat>)
    ensures r.Some? ==> r.value < |form| && form[r.value].fieldId == id
    ensures r.Some? ==> forall j :: 0 <= j < r.value ==> form[j].fieldId != id
    ensures r.None? ==> forall j :: 0 <= j < |form| ==> form[j].fieldId != id
  {
    if |form| == 0 then None
    else if form[0].fieldId == id then Some(0)
    else
      match FindGroup(form[1..], id)
      case None => None
      case Some(k) => Some(k + 1)
  }

  /** Lookups depend only on the groups' field ids. */
  lemma FindGroupSameIds(form: seq<Group>, form': seq<Group>, id: string)
    requires |form'| == |form|
    requires forall j :: 0 <= j < |form| ==> form'[j].fieldId == form[j].fieldId
    ensures FindGroup(form', id) == FindGroup(form, id)
  {
  }

  /** Number of error-message nodes among the children. */
  function ErrorCount(cs: seq<Node>): nat {
    if |cs| == 0 then 0
    else (if cs[0].ErrorMessage? then 1 else 0) + ErrorCount(cs[1..])
  }

  /** The children that are not error messages, in order. */
  function Elements(cs: seq<Node>): seq<Node> {
    if |cs| == 0 then []
    else (if cs[0].Element? then [cs[0]] else []) + Elements(cs[1..])
  }

  lemma {:induction false} CountsAppend(a: seq<Node>, b: seq<Node>)
    ensures ErrorCount(a + b) == ErrorCount(a) + ErrorCount(b)
    ensures Elements(a + b) == Elements(a) + Elements(b)
  {
    if |a| == 0 {
      assert a + b == b;
    } else {
      assert (a + b)[1..] == a[1..] + b;
      CountsAppend(a[1..], b);
    }
  }

  /** The position of the first error message in document order, the one `querySelector`
      finds. */
  ghost function FirstError(cs: seq<Node>): (i: nat)
    requires ErrorCount(cs) > 0
    ensures i < |cs| && cs[i].ErrorMessage?
    ensures forall j :: 0 <= j < i ==> !cs[j].ErrorMessage?
  {
    if cs[0].ErrorMessage? then 0 else 1 + FirstError(cs[1..])
  }

  /** `r` is `cs` with its first error message taken out: unchanged when there is none,
      otherwise one node shorter with every other child, later error messages included, in
      its place; the non-message children are the same either way. */
  ghost predicate FirstErrorRemoved(cs: seq<Node>, r: seq<Node>) {
    && (ErrorCount(cs) == 0 ==> r == cs)
    && (ErrorCount(cs) > 0 ==> r == cs[..FirstError(cs)] + cs[FirstError(cs) + 1..])
    && (ErrorCount(cs) > 0 ==> ErrorCount(r) == ErrorCount(cs) - 1 && |r| == |cs| - 1)
    && Elements(r) == Elements(cs)
  }

  /** The inductive step past a leading child that is not an error message: it stays in
      front, and the first error message is the first one among the rest. */
  lemma {:induction false} FirstErrorRemovedStep(cs: seq<Node>, rest: seq<Node>)
    requires |cs| > 0 && !cs[0].ErrorMessage?
    requires FirstErrorRemoved(cs[1..], rest)
    ensures FirstErrorRemoved(cs, [cs[0]] + rest)
  {
    var t, r := cs[1..], [cs[0]] + rest;
    assert r[1..] == rest;
    assert ErrorCount(cs) == ErrorCount(t);
    assert ErrorCount(r) == ErrorCount(rest);
    assert Elements(cs) == [cs[0]] + Elements(t);
    assert Elements(r) == [cs[0]] + Elements(rest);
    if ErrorCount(t) == 0 {
      assert r == cs;
    } else {
      var i := FirstError(t);
      assert FirstError(cs) == i + 1;
      assert cs[..i + 1] == [cs[0]] + t[..i];
      assert cs[i + 2..] == t[i + 1..];
      assert r == cs[..i + 1] + cs[i + 2..];
    }
  }

  /** `formGroup.querySelector('.error-message')?.remove()`: drops the first error message
      in document order, if any. */
  function RemoveFirstError(cs: seq<Node>): (r: seq<Node>)
    ensures FirstErrorRemoved(cs, r)
  {
    if |cs| == 0 then cs
    else if cs[0].ErrorMessage? then
      assert cs[..0] + cs[1..] == cs[1..];
      cs[1..]
    else
      var rest := RemoveFirstError(cs[1..]);
      FirstErrorRemovedStep(cs, rest);
      [cs[0]] + rest
  }

  /** The part of `showError` that acts on the group: it gains the `error` class, loses its
      first error message and gets a new one holding `message` as its last child. */
  function MarkGroup(g: Group, message: string): (g': Group)
    ensures g'.fieldId == g.fieldId && g'.error
    ensures |g'.children| > 0 && g'.children[|g'.children| - 1] == ErrorMessage(message)
    ensures ErrorCount(g'.children) == if ErrorCount(g.children) == 0 then 1 else ErrorCount(g.children)
    ensures Elements(g'.children) == Elements(g.children)
    ensures ErrorCount(g.children) == 0 ==> g'.children == g.children + [ErrorMessage(message)]
    ensures ErrorCount(g.children) > 0 ==>
              g'.children == g.children[..FirstError(g.children)]
                             + g.children[FirstError(g.children) + 1..] + [ErrorMessage(message)]
  {
    var kept := RemoveFirstError(g.children);
    CountsAppend(kept, [ErrorMessage(message)]);
    assert Elements([ErrorMessage(message)]) == [];
    Group(g.fieldId, kept + [ErrorMessage(message)], true)
  }

  /** `showError(fieldName, message)`. */
  function ShowError(form: seq<Group>, fieldName: string, message: string): (form': seq<Group>)
    ensures |form'| == |form|
    ensures forall j :: 0 <= j < |form| ==> form'[j].fieldId == form[j].fieldId
    ensures FindGroup(form, fieldName).None? ==> form' == form
    ensures FindGroup(form, fieldName).Some? ==>
              var k := FindGroup(form, fieldName).value;
              && form'[k].error
              && ErrorCount(form'[k].children) == (if ErrorCount(form[k].children) == 0 then 1 else ErrorCount(form[k].children))
              && ErrorMessage(message) in form'[k].children
              && |form'[k].children| > 0
              && form'[k].children[|form'[k].children| - 1] == ErrorMessage(message)
              && form'[k].children[..|form'[k].children| - 1] == RemoveFirstError(form[k].children)
              && Elements(form'[k].children) == Elements(form[k].children)
              && forall j :: 0 <= j < |form| && j != k ==> form'[j] == form[j]
  {
    match FindGroup(form, fieldName)
    case None => form
    case Some(k) =>
      var g := MarkGroup(form[k], message);
      assert g.children[|g.children| - 1] in g.children;
      form[k := g]
  }

  /** A group holds exactly one error message, and it says `message`. */
  predicate ShowsOnly(g: Group, message: string) {
    ErrorCount(g.children) == 1 && ErrorMessage(message) in g.children
  }

  /** Every group holds at most one error message. */
  predicate AtMostOneMessageEach(form: seq<Group>) {
    forall j :: 0 <= j < |form| ==> ErrorCount(form[j].children) <= 1
  }

  /** A call to `showError` leaves the field's group marked and showing exactly the new
      message, provided the group showed at most one before; no other group changes. */
  lemma ShowErrorLeavesOneMessage(form: seq<Group>, fieldName: string, message: string)
    requires AtMostOneMessageEach(form)
    ensures var form' := ShowError(form, fieldName, message);
            && AtMostOneMessageEach(form')
            && (FindGroup(form, fieldName).Some? ==>
                  var k := FindGroup(form, fieldName).value;
                  form'[k].error && ShowsOnly(form'[k], message))
  {
  }

  /** The loop at the start of the handler: every group loses its `error` class; its
      children, stale error messages included, stay as they were. */
  function ClearErrors(form: seq<Group>): (form': seq<Group>)
    ensures |form'| == |form|
    ensures forall j :: 0 <= j < |form| ==>
              && !form'[j].error
              && form'[j].fieldId == form[j].fieldId
              && form'[j].children == form[j].children
  {
    if |form| == 0 then []
    else [form[0].(error := false)] + ClearErrors(form[1..])
  }

  /** `showError` for each failing field, in order. */
  function ShowErrors(form: seq<Group>, failures: seq<Field>): (form': seq<Group>)
    ensures |form'| == |form|
    ensures forall j :: 0 <= j < |form| ==> form'[j].fieldId == form[j].fieldId
    decreases |failures|
  {
    if |failures| == 0 then form
    else
      var f := failures[0];
      ShowErrors(ShowError(form, FieldId(f), ErrorText(f)), failures[1..])
  }

  /** The field `f` is reported in the group at index `k`. */
  predicate ReportsAt(form: seq<Group>, f: Field, k: nat) {
    FindGroup(form, FieldId(f)) == Some(k)
  }

  /** Reporting the failures does not change which group each field is reported in. */
  lemma ShowErrorsSameTargets(form: seq<Group>, failures: seq<Field>, f: Field, k: nat)
    requires |failures| > 0
    ensures var next := ShowError(form, FieldId(failures[0]), ErrorText(failures[0]));
            ReportsAt(next, f, k) <==> ReportsAt(form, f, k)
  {
    var next := ShowError(form, FieldId(failures[0]), ErrorText(failures[0]));
    FindGroupSameIds(form, next, FieldId(f));
  }

  /** A group no failing field is reported in comes out exactly as it went in. */
  lemma {:induction false} ShowErrorsUntouched(form: seq<Group>, failures: seq<Field>, k: nat)
    requires k < |form|
    requires forall f :: f in failures ==> !ReportsAt(form, f, k)
    ensures ShowErrors(form, failures)[k] == form[k]
    decreases |failures|
  {
    if |failures| > 0 {
      var f := failures[0];
      var next := ShowError(form, FieldId(f), ErrorText(f));
      forall g | g in failures[1..]
        ensures !ReportsAt(next, g, k)
      {
        ShowErrorsSameTargets(form, failures, g, k);
      }
      assert !ReportsAt(form, f, k);
      assert next[k] == form[k];
      ShowErrorsUntouched(next, failures[1..], k);
      assert ShowErrors(form, failures) == ShowErrors(next, failures[1..]);
    }
  }

  /** Reporting failures never gives a group a second error message, and never touches its
      other children. */
  lemma {:induction false} ShowErrorsBounded(form: seq<Group>, failures: seq<Field>, k: nat)
    requires k < |form| && ErrorCount(form[k].children) <= 1
    ensures ErrorCount(ShowErrors(form, failures)[k].children) <= 1
    ensures Elements(ShowErrors(form, failures)[k].children) == Elements(form[k].children)
    decreases |failures|
  {
    if |failures| > 0 {
      var f := failures[0];
      var next := ShowError(form, FieldId(f), ErrorText(f));
      ShowErrorsBounded(next, failures[1..], k);
    }
  }

  /** Once a group is marked and shows only the message of its own field, reporting more
      failures keeps it so. */
  lemma {:induction false} ShowErrorsKeepsMark(form: seq<Group>, failures: seq<Field>, k: nat, f: Field)
    requires k < |form| && form[k].fieldId == FieldId(f)
    requires form[k].error && ShowsOnly(form[k], ErrorText(f))
    ensures ShowErrors(form, failures)[k].error
    ensures ShowsOnly(ShowErrors(form, failures)[k], ErrorText(f))
    decreases |failures|
  {
    if |failures| > 0 {
      var g := failures[0];
      var next := ShowError(form, FieldId(g), ErrorText(g));
      if FindGroup(form, FieldId(g)) == Some(k) {
        FieldIdInjective(f, g);
      }
      ShowErrorsKeepsMark(next, failures[1..], k, f);
    }
  }

  /** A group some failing field is reported in comes out marked and showing exactly that
      field's message. */
  lemma {:induction false} ShowErrorsMarks(form: seq<Group>, failures: seq<Field>, k: nat, f: Field)
    requires k < |form| && ErrorCount(form[k].children) <= 1
    requires f in failures && ReportsAt(form, f, k)
    ensures ShowErrors(form, failures)[k].error
    ensures ShowsOnly(ShowErrors(form, failures)[k], ErrorText(f))
    decreases |failures|
  {
    var g := failures[0];
    var next := ShowError(form, FieldId(g), ErrorText(g));
    if ReportsAt(form, g, k) {
      FieldIdInjective(f, g);
      ShowErrorsKeepsMark(next, failures[1..], k, f);
    } else {
      assert f in failures[1..];
      ShowErrorsSameTargets(form, failures, f, k);
      ShowErrorsMarks(next, failures[1..], k, f);
    }
  }

  /** The whole validation step of the submit handler. */
  function SubmitAttempt(form: seq<Group>, d: FormData): (r: Attempt)
    ensures |r.groups| == |form|
    ensures r.proceeds <==> forall f :: Passes(d, f)
  {
    var failures := Failures(d);
    Attempt(ShowErrors(ClearErrors(form), failures), IsValid(d))
  }

  /** After a submit attempt each group is in one of two states. If its field's requirement is
      unmet, it is marked and shows exactly that field's message, with its other children
      unchanged. Otherwise it is unmarked and its children are as before, so an error message
      left by an earlier attempt stays in place. */
  lemma SubmitAttemptGroups(form: seq<Group>, d: FormData, k: nat)
    requires k < |form| && ErrorCount(form[k].children) <= 1
    ensures var g := SubmitAttempt(form, d).groups[k];
            && g.fieldId == form[k].fieldId
            && Elements(g.children) == Elements(form[k].children)
            && (forall f :: !Passes(d, f) && ReportsAt(form, f, k) ==>
                  g.error && ShowsOnly(g, ErrorText(f)))
            && ((forall f :: Passes(d, f) || !ReportsAt(form, f, k)) ==>
                  !g.error && g.children == form[k].children)
  {
    var cleared := ClearErrors(form);
    var failures := Failures(d);
    forall f
      ensures ReportsAt(cleared, f, k) <==> ReportsAt(form, f, k)
    {
      FindGroupSameIds(form, cleared, FieldId(f));
    }
    ShowErrorsBounded(cleared, failures, k);
    forall f | !Passes(d, f) && ReportsAt(form, f, k)
      ensures SubmitAttempt(form, d).groups[k].error
      ensures ShowsOnly(SubmitAttempt(form, d).groups[k], ErrorText(f))
    {
      ShowErrorsMarks(cleared, failures, k, f);
    }
    if forall f :: Passes(d, f) || !ReportsAt(form, f, k) {
      ShowErrorsUntouched(cleared, failures, k);
    }
  }

  /** The handler never lets a group accumulate error messages: starting from groups with at
      most one each, that remains true after any number of submit attempts. */
  lemma SubmitAttemptKeepsOneMessage(form: seq<Group>, d: FormData)
    requires AtMostOneMessageEach(form)
    ensures AtMostOneMessageEach(SubmitAttempt(form, d).groups)
  {
    forall k | 0 <= k < |form|
      ensures ErrorCount(SubmitAttempt(form, d).groups[k].children) <= 1
    {
      ShowErrorsBounded(ClearErrors(form), Failures(d), k);
    }
  }
}
