/**
 * Reading one field of a submitted form, as every handler does it:
 * `request.form.get(key, default).strip()`.
 */
module Forms {
  import opened Wrappers
  import opened Text

  /** The stripped value of a field, or of `default` when the request does
      not carry the field. */
  function FormValue(v: Option<string>, default: string): (s: string)
    ensures NoOuterSpace(s)
    ensures v.Some? ==> s == Strip(v.value)
    ensures v.Some? ==> (s == [] <==> AllSpace(v.value))
    ensures v.None? && NoOuterSpace(default) ==> s == default
  {
    StripEmpty(v.GetOr(default));
    Strip(v.GetOr(default))
  }
}
