/** Submitted form fields and strong-parameter filtering
    (`params.require(:x).permit(...)`). */
module Params {
  import opened Common

  /** The fields submitted under one key, by name. */
  type Form = map<string, string>

  /** `require`: a missing or empty form fails (ParameterMissing). */
  function Require(form: Option<Form>): (r: Option<Form>)
    ensures r.Some? <==> form.Some? && form.value != map[]
    ensures r.Some? ==> r.value == form.value
  {
    if form.Some? && form.value != map[] then form else None
  }

  /** `permit`: only the whitelisted fields survive, with their values. */
  function Permit(form: Form, allowed: set<string>): (r: Form)
    ensures r.Keys == form.Keys * allowed
    ensures forall k :: k in r ==> r[k] == form[k]
  {
    map k | k in form && k in allowed :: form[k]
  }

  function Field(form: Form, name: string): Option<string> {
    if name in form then Some(form[name]) else None
  }

  /** Two forms that agree on the whitelisted fields permit the same thing. */
  lemma PermitIgnoresOtherFields(f1: Form, f2: Form, allowed: set<string>)
    requires forall k :: k in allowed ==> Field(f1, k) == Field(f2, k)
    ensures Permit(f1, allowed) == Permit(f2, allowed)
  {
    var p1, p2 := Permit(f1, allowed), Permit(f2, allowed);
    forall k | k in allowed ensures (k in f1 <==> k in f2) && (k in f1 ==> f1[k] == f2[k]) {
      assert Field(f1, k) == Field(f2, k);
    }
    assert p1.Keys == p2.Keys;
  }
}
