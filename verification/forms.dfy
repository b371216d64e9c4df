/** `get_required_fields` of TP3_202100722_202100718/utils.py: collect the
    values of the required fields of a submitted form, or nothing when one
    of them is missing or empty. A form is a map from field names to the
    submitted text; `request_form.get(field)` is the lookup below. */
module Forms {
  import opened Wrappers

  type Form = map<string, string>

  /** `request_form.get(field)`: the submitted text, or `None`. */
  function FormGet(form: Form, field: string): Option<string> {
    if field in form then Some(form[field]) else None
  }

  /** `request_form.get(field)` is truthy: present and not the empty text. */
  predicate Filled(form: Form, field: string) {
    field in form && form[field] != ""
  }

  /** The comprehension of line 38: the required fields, in order, whose
      value is missing or empty. */
  function MissingFields(form: Form, required: seq<string>): (missing: seq<string>)
    ensures |missing| <= |required|
    ensures forall f :: f in missing <==> f in required && !Filled(form, f)
  {
    if |required| == 0 then []
    else
      var rest := MissingFields(form, required[1..]);
      assert forall f :: f in required <==> f == required[0] || f in required[1..];
      if Filled(form, required[0]) then rest else [required[0]] + rest
  }

  /** Lines 38-43: `None` when a required field is missing or empty,
      otherwise the values of the required fields in their order. */
  function GetRequiredFields(form: Form, required: seq<string>): (r: Option<seq<string>>)
    ensures r.None? <==> exists k :: 0 <= k < |required| && !Filled(form, required[k])
    ensures r.Some? ==> |r.value| == |required|
    ensures r.Some? ==> forall k :: 0 <= k < |required| ==>
              FormGet(form, required[k]) == Some(r.value[k]) && r.value[k] != ""
  {
    if |MissingFields(form, required)| > 0 then
      assert MissingFields(form, required)[0] in required;
      None
    else
      assert forall k :: 0 <= k < |required| ==> required[k] !in MissingFields(form, required);
      Some(seq(|required|, k requires 0 <= k < |required| => form[required[k]]))
  }

  /** With no required fields the result is an empty list, never `None`. */
  lemma NoRequiredFields(form: Form)
    ensures GetRequiredFields(form, []) == Some([])
  {
  }

  /** The missing fields depend only on the values of the required fields. */
  lemma {:induction false} MissingIgnoresOtherFields(a: Form, b: Form, required: seq<string>)
    requires forall f :: f in required ==> FormGet(a, f) == FormGet(b, f)
    ensures MissingFields(a, required) == MissingFields(b, required)
  {
    if |required| > 0 {
      assert required[0] in required;
      assert Filled(a, required[0]) == Filled(b, required[0]);
      MissingIgnoresOtherFields(a, b, required[1..]);
    }
  }

  /** Fields not listed as required never change the result. */
  lemma OtherFieldsIgnored(a: Form, b: Form, required: seq<string>)
    requires forall f :: f in required ==> FormGet(a, f) == FormGet(b, f)
    ensures GetRequiredFields(a, required) == GetRequiredFields(b, required)
  {
    MissingIgnoresOtherFields(a, b, required);
    if GetRequiredFields(a, required).Some? {
      var x, y := GetRequiredFields(a, required).value, GetRequiredFields(b, required).value;
      forall k | 0 <= k < |required|
        ensures x[k] == y[k]
      {
        assert required[k] in required;
      }
      assert x == y;
    }
  }

  /** The form a client submits: field `fields[k]` carries `values[k]`. */
  function FormOf(fields: seq<string>, values: seq<string>): (form: Form)
    requires |fields| == |values|
    ensures forall f :: f in form <==> f in fields
  {
    if |fields| == 0 then map[]
    else
      var n := |fields| - 1;
      assert forall f :: f in fields <==> f in fields[..n] || f == fields[n];
      FormOf(fields[..n], values[..n])[fields[n] := values[n]]
  }

  /** No field name occurs twice. */
  predicate Distinct(fields: seq<string>) {
    forall i, j :: 0 <= i < j < |fields| ==> fields[i] != fields[j]
  }

  /** In a form built from distinct fields, each field carries its value. */
  lemma {:induction false} FormOfLookup(fields: seq<string>, values: seq<string>, k: int)
    requires |fields| == |values| && Distinct(fields) && 0 <= k < |fields|
    ensures FormGet(FormOf(fields, values), fields[k]) == Some(values[k])
  {
    var n := |fields| - 1;
    if k < n {
      FormOfLookup(fields[..n], values[..n], k);
    }
  }

  /** Submitting every required field with a non-empty value gives those
      values back, in order. */
  lemma FilledFormRoundTrip(required: seq<string>, values: seq<string>)
    requires |required| == |values| && Distinct(required)
    requires forall k :: 0 <= k < |values| ==> values[k] != ""
    ensures GetRequiredFields(FormOf(required, values), required) == Some(values)
  {
    var form := FormOf(required, values);
    forall k | 0 <= k < |required|
      ensures Filled(form, required[k]) && form[required[k]] == values[k]
    {
      FormOfLookup(required, values, k);
    }
    assert GetRequiredFields(form, required).value == values;
  }

  /** Emptying one required field of such a form makes the result `None`. */
  lemma EmptiedFieldRejected(required: seq<string>, values: seq<string>, k: int)
    requires |required| == |values| && Distinct(required) && 0 <= k < |required|
    ensures GetRequiredFields(FormOf(required, values)[required[k] := ""], required) == None
  {
  }
}
