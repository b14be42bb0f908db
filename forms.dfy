/** What the three add-forms share: the per-field messages their validation
    schemas report, and the part of a page's state that a submit handler
    changes (its `isSubmitting` flag and the router's destination). */
module Forms {
  import opened Schema

  /** One issue reported by a form's validation schema, tied to its field;
      each form names its fields with a datatype of its own. */
  datatype FieldError<F> = FieldError(field: F, message: string)

  /** JavaScript's `s.length`: the number of UTF-16 code units, so a
      character outside the Basic Multilingual Plane counts twice. */
  function Utf16Length(s: string): (n: nat)
    ensures |s| <= n <= 2 * |s|
    ensures (forall i | 0 <= i < |s| :: s[i] as int < 0x1_0000) ==> n == |s|
  {
    if s == [] then 0
    else (if s[0] as int < 0x1_0000 then 1 else 2) + Utf16Length(s[1..])
  }

  /** One emoji is two code units: a one-character text already meets a
      minimum length of 2. */
  lemma AstralCharacterCountsTwice()
    ensures |"\U{1F600}"| == 1 && Utf16Length("\U{1F600}") == 2
  {
    assert "\U{1F600}"[1..] == [];
  }

  /** `z.string().min(n, { message })` on one field: zod compares `.length`. */
  function MinLength<F>(field: F, s: string, n: nat, message: string): (errs: seq<FieldError<F>>)
    ensures errs == [] <==> Utf16Length(s) >= n
    ensures errs != [] ==> errs == [FieldError(field, message)]
  {
    if Utf16Length(s) < n then [FieldError(field, message)] else []
  }

  /** `z.string().max(n, { message })` on one field. */
  function MaxLength<F>(field: F, s: string, n: nat, message: string): (errs: seq<FieldError<F>>)
    ensures errs == [] <==> Utf16Length(s) <= n
    ensures errs != [] ==> errs == [FieldError(field, message)]
  {
    if Utf16Length(s) > n then [FieldError(field, message)] else []
  }

  /** JavaScript's `s || ''` on an optional string: a missing value and the
      empty string both become the empty string. */
  function OrEmpty(s: Option<string>): (r: string)
    ensures s.Some? ==> r == s.value
    ensures s.None? ==> r == ""
  {
    if s.Some? then s.value else ""
  }

  /** The state of an add-page that its submit handler touches. */
  class PageState {
    /** Drives the disabled "Saving..." state of the submit button. */
    var isSubmitting: bool
    /** The last path handed to `router.push`, if any. */
    var location: Option<string>

    constructor ()
      ensures !isSubmitting && location == None
    {
      isSubmitting := false;
      location := None;
    }
  }
}
