/** A submitted HTML form (or query string) as the handlers see it: every field
    name maps to the values posted under it, in posting order (werkzeug's
    `MultiDict`). */
module Forms {
  import opened Common

  type Form = map<string, seq<string>>

  /** The first value posted under `key`, if any. */
  function Get(form: Form, key: string): Option<string> {
    if key in form && |form[key]| > 0 then Some(form[key][0]) else None
  }

  /** `key in form`. */
  predicate Has(form: Form, key: string) {
    key in form && |form[key]| > 0
  }

  /** Every value posted under `key`, in posting order. */
  function GetList(form: Form, key: string): seq<string> {
    if key in form then form[key] else []
  }

  /** Python truthiness of an optional string: present and non-empty. */
  predicate Truthy(v: Option<string>) {
    v.Some? && v.value != ""
  }

  /** Python `v or fallback` for an optional string. */
  function Or(v: Option<string>, fallback: string): string {
    if Truthy(v) then v.value else fallback
  }

  /** Python `v or fallback` where the fallback may itself be `None`. */
  function OrOpt(v: Option<string>, fallback: Option<string>): Option<string> {
    if Truthy(v) then v else fallback
  }

  /** The first value under `key` is non-blank: the usual test for a ticked checkbox. */
  predicate Checked(form: Form, key: string) {
    Truthy(Get(form, key))
  }
}
