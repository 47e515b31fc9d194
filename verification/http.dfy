/** What a route action receives and what it hands back: the submitted form
    fields, the response, and the side effects it performs on the outside
    world (files written, rows inserted), in the order it performs them. */
module Http {
  import opened Optional

  /** Text fields of a submitted form; `formData.get(k)` is `Get(form, k)`. */
  type FormData = map<string, string>

  /** `formData.get(key)`: the submitted value, or null when the field is absent. */
  function Get(form: FormData, key: string): Option<string> {
    if key in form then Some(form[key]) else None
  }

  /** JavaScript truthiness of a form value: null and "" are falsy. */
  predicate Truthy(v: Option<string>) {
    v.Some? && v.value != ""
  }

  datatype Response =
    | Redirect(location: string)
      /** `{ errors: { field: message } }` returned as action data */
    | ActionErrors(field: string, message: string)
      /** `new Response(body, { status })` */
    | Plain(status: nat, body: string)
      /** an exception escaped the action (HTTP 500) */
    | ServerError

  /** An observable step an action performs beside its response. Byte
      contents of written files are not modelled, only where they go. */
  datatype Effect =
    | WriteFile(path: string)
    | Insert(table: string, values: seq<Option<string>>)

  /** A response together with the effects performed while producing it. */
  datatype Outcome = Outcome(response: Response, effects: seq<Effect>)

  predicate IsInsert(e: Effect) { e.Insert? }

  predicate HasInsert(effects: seq<Effect>) {
    exists k | 0 <= k < |effects| :: IsInsert(effects[k])
  }
}
