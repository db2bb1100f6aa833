/**
 * The volunteer-registration form of the `cadastro` page: per-field error
 * indicators, the submission gate that stores the record under
 * `voluntarioData`, and the rehydration of the inputs from that record.
 *
 * The page is abstracted to two maps: `values` gives the `value` of every
 * element the page has, keyed by element id, and `indicators` gives the text
 * of every error indicator, keyed by its element id `error-<field>`.
 */
module Form {
  import opened Text
  import opened Validation
  import opened Storage

  const DataKey: string := "voluntarioData"
  const ErrorPrefix: string := "error-"

  /** The element id of the error indicator of field `id`. */
  function ErrorKey(id: string): (k: string)
    ensures |k| == |ErrorPrefix| + |id| && k[..|ErrorPrefix|] == ErrorPrefix && k[|ErrorPrefix|..] == id
  {
    ErrorPrefix + id
  }

  /** Distinct fields never share an indicator. */
  lemma ErrorKeyInjective(a: string, b: string)
    ensures ErrorKey(a) == ErrorKey(b) <==> a == b
  {
    if ErrorKey(a) == ErrorKey(b) {
      assert a == ErrorKey(a)[|ErrorPrefix|..];
    }
  }

  /** The indicator table after `showError(id, msg)`. */
  function Indicate(ind: map<string, string>, id: string, msg: string): (r: map<string, string>)
  {
    if msg != "" then ind[ErrorKey(id) := msg] else ind - {ErrorKey(id)}
  }

  /** `showError` mounts (or overwrites) the indicator of `id` with a non-empty
      message, removes it for the empty one, and no other field's indicator
      changes. */
  lemma IndicateEffect(ind: map<string, string>, id: string, msg: string, other: string)
    requires other != id
    ensures msg != "" ==> ErrorKey(id) in Indicate(ind, id, msg) && Indicate(ind, id, msg)[ErrorKey(id)] == msg
    ensures msg == "" ==> ErrorKey(id) !in Indicate(ind, id, msg)
    ensures ErrorKey(other) in Indicate(ind, id, msg) <==> ErrorKey(other) in ind
    ensures ErrorKey(other) in ind ==> Indicate(ind, id, msg)[ErrorKey(other)] == ind[ErrorKey(other)]
  {
    ErrorKeyInjective(id, other);
  }

  /** Repeating a `showError` call changes nothing. */
  lemma IndicateIdempotent(ind: map<string, string>, id: string, msg: string)
    ensures Indicate(Indicate(ind, id, msg), id, msg) == Indicate(ind, id, msg)
  {
  }

  /** Every field of the form has an input on the page. */
  ghost predicate HasFields(values: map<string, string>) {
    forall i :: 0 <= i < |Fields| ==> Fields[i] in values
  }

  /** One `validateField` call: the field and the message computed for it. */
  datatype Check = Check(id: string, msg: string)

  /** The messages `validateField` computes for each of `ids`, in order. */
  function Checks(values: map<string, string>, ids: seq<string>, isFuture: bool): (cs: seq<Check>)
    requires forall i :: 0 <= i < |ids| ==> ids[i] in values
    ensures |cs| == |ids|
  {
    if ids == [] then []
    else
      var last := ids[|ids| - 1];
      Checks(values, ids[..|ids| - 1], isFuture) + [Check(last, Validate(last, values[last], isFuture))]
  }

  /** The `i`-th check is `validateField`'s verdict on `ids[i]`. */
  lemma {:induction false} ChecksAt(values: map<string, string>, ids: seq<string>, isFuture: bool, i: nat)
    requires forall j :: 0 <= j < |ids| ==> ids[j] in values
    requires i < |ids|
    ensures Checks(values, ids, isFuture)[i] == Check(ids[i], Validate(ids[i], values[ids[i]], isFuture))
  {
    if i < |ids| - 1 {
      ChecksAt(values, ids[..|ids| - 1], isFuture, i);
    }
  }

  /** The indicator table after the `showError` calls of `cs`, in order. */
  function ApplyChecks(ind: map<string, string>, cs: seq<Check>): map<string, string>
  {
    if cs == [] then ind
    else Indicate(ApplyChecks(ind, cs[..|cs| - 1]), cs[|cs| - 1].id, cs[|cs| - 1].msg)
  }

  /** `showError` calls for other fields leave an indicator as it was. */
  lemma {:induction false} ApplyChecksOther(ind: map<string, string>, cs: seq<Check>, key: string)
    requires forall i :: 0 <= i < |cs| ==> key != ErrorKey(cs[i].id)
    ensures key in ApplyChecks(ind, cs) <==> key in ind
    ensures key in ind ==> ApplyChecks(ind, cs)[key] == ind[key]
  {
    if cs != [] {
      ApplyChecksOther(ind, cs[..|cs| - 1], key);
    }
  }

  /** After `showError` calls for distinct fields, the field of `cs[i]` has an
      indicator exactly when its message is non-empty, and it shows that
      message. */
  lemma {:induction false} ApplyChecksAt(ind: map<string, string>, cs: seq<Check>, i: nat)
    requires forall j, k :: 0 <= j < k < |cs| ==> cs[j].id != cs[k].id
    requires i < |cs|
    ensures ErrorKey(cs[i].id) in ApplyChecks(ind, cs) <==> cs[i].msg != ""
    ensures ErrorKey(cs[i].id) in ApplyChecks(ind, cs) ==> ApplyChecks(ind, cs)[ErrorKey(cs[i].id)] == cs[i].msg
  {
    if i < |cs| - 1 {
      ApplyChecksAt(ind, cs[..|cs| - 1], i);
      ErrorKeyInjective(cs[i].id, cs[|cs| - 1].id);
    }
  }

  /** The indicator table after `validateField` has run on each of `ids`, in order. */
  function Revalidate(ind: map<string, string>, values: map<string, string>, ids: seq<string>, isFuture: bool): map<string, string>
    requires forall i :: 0 <= i < |ids| ==> ids[i] in values
  {
    ApplyChecks(ind, Checks(values, ids, isFuture))
  }

  /** After validating distinct `ids` in order, `ids[i]` has an indicator
      exactly when its value fails, and it shows that failure's message. */
  lemma RevalidateAt(ind: map<string, string>, values: map<string, string>, ids: seq<string>, isFuture: bool, i: nat)
    requires forall j :: 0 <= j < |ids| ==> ids[j] in values
    requires forall j, k :: 0 <= j < k < |ids| ==> ids[j] != ids[k]
    requires i < |ids|
    ensures ErrorKey(ids[i]) in Revalidate(ind, values, ids, isFuture) <==> Validate(ids[i], values[ids[i]], isFuture) != ""
    ensures ErrorKey(ids[i]) in Revalidate(ind, values, ids, isFuture) ==>
      Revalidate(ind, values, ids, isFuture)[ErrorKey(ids[i])] == Validate(ids[i], values[ids[i]], isFuture)
  {
    var cs := Checks(values, ids, isFuture);
    forall j | 0 <= j < |cs| ensures cs[j].id == ids[j] {
      ChecksAt(values, ids, isFuture, j);
    }
    ApplyChecksAt(ind, cs, i);
    ChecksAt(values, ids, isFuture, i);
  }

  /** Validating `ids` leaves every indicator that belongs to none of them as it was. */
  lemma RevalidateOther(ind: map<string, string>, values: map<string, string>, ids: seq<string>, isFuture: bool, key: string)
    requires forall j :: 0 <= j < |ids| ==> ids[j] in values
    requires forall j :: 0 <= j < |ids| ==> key != ErrorKey(ids[j])
    ensures key in Revalidate(ind, values, ids, isFuture) <==> key in ind
    ensures key in ind ==> Revalidate(ind, values, ids, isFuture)[key] == ind[key]
  {
    var cs := Checks(values, ids, isFuture);
    forall j | 0 <= j < |cs| ensures cs[j].id == ids[j] {
      ChecksAt(values, ids, isFuture, j);
    }
    ApplyChecksOther(ind, cs, key);
  }

  /** After the validation pass over the twelve fields, a field has an
      indicator exactly when its value fails, showing that failure's message. */
  lemma RevalidateFields(ind: map<string, string>, values: map<string, string>, isFuture: bool, i: nat)
    requires HasFields(values) && i < |Fields|
    ensures ErrorKey(Fields[i]) in Revalidate(ind, values, Fields, isFuture) <==> Validate(Fields[i], values[Fields[i]], isFuture) != ""
    ensures ErrorKey(Fields[i]) in Revalidate(ind, values, Fields, isFuture) ==>
      Revalidate(ind, values, Fields, isFuture)[ErrorKey(Fields[i])] == Validate(Fields[i], values[Fields[i]], isFuture)
  {
    FieldsDistinct();
    RevalidateAt(ind, values, Fields, isFuture, i);
  }

  /** Validating one more field appends one check. */
  lemma ChecksSnoc(values: map<string, string>, ids: seq<string>, id: string, isFuture: bool)
    requires forall i :: 0 <= i < |ids| ==> ids[i] in values
    requires id in values
    ensures Checks(values, ids + [id], isFuture) == Checks(values, ids, isFuture) + [Check(id, Validate(id, values[id], isFuture))]
  {
    assert (ids + [id])[..|ids|] == ids;
  }

  /** No check of `cs` found a failure: the flag the submit handler accumulates. */
  ghost predicate AllClear(cs: seq<Check>) {
    forall i :: 0 <= i < |cs| ==> cs[i].msg == ""
  }

  /** One more check keeps the flag only if it passes. */
  lemma AllClearSnoc(cs: seq<Check>, c: Check)
    ensures AllClear(cs + [c]) <==> AllClear(cs) && c.msg == ""
  {
    assert (cs + [c])[|cs|] == c;
    forall i | 0 <= i < |cs| ensures (cs + [c])[i] == cs[i] {}
  }

  /** The gate: every field of the form passes its rule chain. */
  ghost predicate AllPass(values: map<string, string>, isFuture: bool)
    requires HasFields(values)
  {
    AllClear(Checks(values, Fields, isFuture))
  }

  /** Validating one more field appends one `showError` call. */
  lemma RevalidateSnoc(ind: map<string, string>, values: map<string, string>, ids: seq<string>, id: string, isFuture: bool)
    requires forall i :: 0 <= i < |ids| ==> ids[i] in values
    requires id in values
    ensures Revalidate(ind, values, ids + [id], isFuture) == Indicate(Revalidate(ind, values, ids, isFuture), id, Validate(id, values[id], isFuture))
  {
    ChecksSnoc(values, ids, id, isFuture);
    var cs := Checks(values, ids + [id], isFuture);
    assert cs[..|cs| - 1] == Checks(values, ids, isFuture);
  }

  /** One step of the validation pass: extending the validated prefix of
      `ids` by `ids[i]` applies one more `showError` call, and keeps the flag
      only if that field passes. */
  lemma PassStep(ind: map<string, string>, values: map<string, string>, ids: seq<string>, i: nat, isFuture: bool)
    requires forall j :: 0 <= j < |ids| ==> ids[j] in values
    requires i < |ids|
    ensures Revalidate(ind, values, ids[..i + 1], isFuture) == Indicate(Revalidate(ind, values, ids[..i], isFuture), ids[i], Validate(ids[i], values[ids[i]], isFuture))
    ensures AllClear(Checks(values, ids[..i + 1], isFuture)) <==> AllClear(Checks(values, ids[..i], isFuture)) && Validate(ids[i], values[ids[i]], isFuture) == ""
  {
    var done, id := ids[..i], ids[i];
    TakeSnoc(ids, i);
    RevalidateSnoc(ind, values, done, id, isFuture);
    ChecksSnoc(values, done, id, isFuture);
    AllClearSnoc(Checks(values, done, isFuture), Check(id, Validate(id, values[id], isFuture)));
  }

  /** Whether the gate opens, stated with the independent rule description:
      every field's value is `Acceptable`. */
  lemma AllPassIff(values: map<string, string>, isFuture: bool)
    requires HasFields(values)
    ensures AllPass(values, isFuture) <==> forall i :: 0 <= i < |Fields| ==> Acceptable(Fields[i], values[Fields[i]], isFuture)
  {
    forall i | 0 <= i < |Fields|
      ensures Checks(values, Fields, isFuture)[i].msg == "" <==> Acceptable(Fields[i], values[Fields[i]], isFuture)
    {
      ChecksAt(values, Fields, isFuture, i);
      ValidateAccepts(Fields[i], values[Fields[i]], isFuture);
    }
  }

  /** The gate opens exactly when no field is left with an indicator after
      every field has been validated once. */
  lemma AllPassIffNoIndicator(ind: map<string, string>, values: map<string, string>, isFuture: bool)
    requires HasFields(values)
    ensures AllPass(values, isFuture) <==>
      forall i :: 0 <= i < |Fields| ==> ErrorKey(Fields[i]) !in Revalidate(ind, values, Fields, isFuture)
  {
    forall i | 0 <= i < |Fields|
      ensures ErrorKey(Fields[i]) in Revalidate(ind, values, Fields, isFuture) <==> Checks(values, Fields, isFuture)[i].msg != ""
    {
      RevalidateFields(ind, values, isFuture, i);
      ChecksAt(values, Fields, isFuture, i);
    }
  }

  /** The record stored on success: exactly the twelve fields. */
  function RecordOf(values: map<string, string>): (r: map<string, string>)
    requires HasFields(values)
  {
    map k | k in Fields :: values[k]
  }

  lemma RecordOfFields(values: map<string, string>)
    requires HasFields(values)
    ensures RecordOf(values).Keys == set i | 0 <= i < |Fields| :: Fields[i]
    ensures forall i :: 0 <= i < |Fields| ==> RecordOf(values)[Fields[i]] == values[Fields[i]]
  {
  }

  /** The inputs after copying every saved entry whose element exists. */
  function Rehydrated(values: map<string, string>, saved: map<string, string>): map<string, string>
  {
    map k | k in values :: if k in saved then saved[k] else values[k]
  }

  /** `form.reset()`: every field back to its default, the empty string. */
  function Reset(values: map<string, string>): map<string, string>
  {
    map k | k in values :: if k in Fields then "" else values[k]
  }

  /** Reloading from a record stored by a successful submission gives every
      field its submitted value back and leaves every other element alone. */
  lemma {:induction false} RehydrateRoundTrip(submitted: map<string, string>, reloaded: map<string, string>)
    requires HasFields(submitted) && HasFields(reloaded)
    ensures Rehydrated(reloaded, RecordOf(submitted)).Keys == reloaded.Keys
    ensures forall i :: 0 <= i < |Fields| ==> Rehydrated(reloaded, RecordOf(submitted))[Fields[i]] == submitted[Fields[i]]
    ensures forall k :: k in reloaded && k !in Fields ==> Rehydrated(reloaded, RecordOf(submitted))[k] == reloaded[k]
  {
  }

  /** The form's state: page inputs, error indicators and the shared store. */
  class VolunteerForm {
    var values: map<string, string>
    var indicators: map<string, string>
    const store: LocalStorage
    /** whether the page has the `mensagem` notice element */
    const hasNotice: bool

    ghost predicate Valid()
      reads this, store
    {
      && HasFields(values)
      && (DataKey in store.items ==> store.items[DataKey].Json?)
    }

    /** A page whose markup has all twelve inputs and no indicator yet. */
    constructor (store: LocalStorage, values: map<string, string>, hasNotice: bool)
      requires HasFields(values)
      requires DataKey in store.items ==> store.items[DataKey].Json?
      ensures Valid()
      ensures this.store == store && this.values == values && this.hasNotice == hasNotice
      ensures indicators == map[]
    {
      this.store := store;
      this.values := values;
      this.hasNotice := hasNotice;
      indicators := map[];
    }

    /** `showError(id, msg)`. */
    method ShowError(id: string, msg: string)
      modifies this`indicators
      ensures indicators == Indicate(old(indicators), id, msg)
    {
      var key := ErrorKey(id);
      if msg != "" {
        indicators := indicators[key := msg];
      } else if key in indicators {
        indicators := indicators - {key};
      }
    }

    /** `validateField(id)`, also the handler of the field's `input` event. */
    method ValidateField(id: string, isFuture: bool)
      requires id in values
      modifies this`indicators
      ensures indicators == Indicate(old(indicators), id, Validate(id, values[id], isFuture))
    {
      var error := Validate(id, values[id], isFuture);
      ShowError(id, error);
    }

    /** The validation pass of the `submit` handler: `validateField` on each
        of `ids` in order, clearing the flag when a field is left with an
        indicator. */
    method ValidateAll(ids: seq<string>, isFuture: bool) returns (valid: bool)
      requires forall i :: 0 <= i < |ids| ==> ids[i] in values
      modifies this`indicators
      ensures valid == AllClear(Checks(values, ids, isFuture))
      ensures indicators == Revalidate(old(indicators), values, ids, isFuture)
    {
      valid := true;
      var i := 0;
      while i < |ids|
        invariant 0 <= i <= |ids|
        invariant indicators == Revalidate(old(indicators), values, ids[..i], isFuture)
        invariant valid == AllClear(Checks(values, ids[..i], isFuture))
      {
        var id := ids[i];
        ValidateField(id, isFuture);
        PassStep(old(indicators), values, ids, i, isFuture);
        if ErrorKey(id) in indicators {
          valid := false;
        }
        i := i + 1;
      }
      assert ids[..i] == ids;
    }

    /** `formData`: the current value of every field, collected in order. */
    method CollectRecord() returns (formData: map<string, string>)
      requires HasFields(values)
      ensures formData == RecordOf(values)
    {
      formData := map[];
      var i := 0;
      while i < |Fields|
        invariant 0 <= i <= |Fields|
        invariant formData == map k | k in Fields[..i] :: values[k]
      {
        TakeSnoc(Fields, i);
        formData := formData[Fields[i] := values[Fields[i]]];
        i := i + 1;
      }
      assert Fields[..i] == Fields;
    }

    /** The `submit` handler. `isFuture` is the date comparison for the current
        birth-date value. On success the record is stored, and the inputs are
        reset only when the page has the notice element. */
    method Submit(isFuture: bool) returns (accepted: bool)
      requires Valid()
      modifies this, store
      ensures Valid()
      ensures accepted == AllPass(old(values), isFuture)
      ensures indicators == Revalidate(old(indicators), old(values), Fields, isFuture)
      ensures store.items == if accepted then old(store.items)[DataKey := Json(RecordOf(old(values)))] else old(store.items)
      ensures values == if accepted && hasNotice then Reset(old(values)) else old(values)
    {
      ghost var items0, values0 := store.items, values;
      accepted := ValidateAll(Fields, isFuture);
      assert store.items == items0 && values == values0;
      if accepted {
        var formData := CollectRecord();
        store.SetItem(DataKey, Json(formData));
        assert store.items == items0[DataKey := Json(RecordOf(values0))];
        if hasNotice {
          values := Reset(values);
        }
      }
    }

    /** Page-load rehydration: every key of the stored record whose element
        exists gets the stored value; nothing happens without a record. */
    method Rehydrate()
      requires Valid()
      modifies this`values
      ensures Valid()
      ensures values == if DataKey in store.items then Rehydrated(old(values), store.items[DataKey].record) else old(values)
    {
      if DataKey in store.items {
        var saved := store.items[DataKey].record;
        var keys := saved.Keys;
        while keys != {}
          invariant keys <= saved.Keys
          invariant values.Keys == old(values).Keys
          invariant forall k :: k in values ==> values[k] == if k in saved && k !in keys then saved[k] else old(values)[k]
          decreases keys
        {
          var id :| id in keys;
          if id in values {
            values := values[id := saved[id]];
          }
          keys := keys - {id};
        }
      }
    }
  }

  /** A successful submission followed by a page load on fresh inputs gives
      every field its submitted value back. */
  method SubmitThenReload(form: VolunteerForm, isFuture: bool, freshValues: map<string, string>) returns (page: VolunteerForm)
    requires form.Valid() && HasFields(freshValues)
    requires AllPass(form.values, isFuture)
    modifies form, form.store
    ensures page.values.Keys == freshValues.Keys
    ensures forall i :: 0 <= i < |Fields| ==> page.values[Fields[i]] == old(form.values)[Fields[i]]
  {
    ghost var submitted := form.values;
    var accepted := form.Submit(isFuture);
    assert accepted;
    page := new VolunteerForm(form.store, freshValues, form.hasNotice);
    page.Rehydrate();
    RehydrateRoundTrip(submitted, freshValues);
  }
}
