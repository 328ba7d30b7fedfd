/** Values shared by the share-dashboard modules: optional values, the
    answer of a remote call, user-facing messages, choice lists and the
    declared fields of a form together with their per-field cleaning. */
module Common {

  datatype Option<+T> = None | Some(value: T)

  /** The answer of a remote client call: a value, or the exception it raised. */
  datatype Result<+T, +E> = Ok(value: T) | Err(error: E)

  /** An exception raised by a remote client call; only its text is kept. */
  datatype ApiError = ApiError(reason: string)

  /** What a submit handler returns: the created object, or False. */
  datatype Outcome<+T> = Returned(value: T) | ReturnedFalse

  /** A message queued for the user by the request. */
  datatype Message = SuccessMessage(text: string) | InfoMessage(text: string) | ErrorMessage(text: string)

  /** One `(value, label)` pair of a select widget; the label is `display`. */
  datatype Choice = Choice(value: string, display: string)

  /** The leading `(' ', ' ')` entry every choice list here starts with. */
  const Placeholder: Choice := Choice(" ", " ")

  /** Python's `a or b` on two strings: `a` when it is non-empty, else `b`.
      The empty string also stands for a `None` attribute. */
  function NameOr(name: string, fallback: string): (r: string)
    ensures name != "" ==> r == name
    ensures name == "" ==> r == fallback
    ensures r != "" <==> name != "" || fallback != ""
  {
    if name != "" then name else fallback
  }

  /** A declared form field. `maxLength` is `None` when the field
      declares no `max_length`; `required` is the framework's default
      `True` unless the field says `required=False`. */
  datatype Field =
    | CharField(key: string, maxLength: Option<nat>, required: bool)
    | ChoiceField(key: string, choices: seq<Choice>, required: bool)

  /** The keys of a field list, in order. */
  function Keys(fields: seq<Field>): (ks: seq<string>)
    ensures |ks| == |fields|
    ensures forall i :: 0 <= i < |fields| ==> ks[i] == fields[i].key
  {
    if fields == [] then [] else [fields[0].key] + Keys(fields[1..])
  }

  /** No two fields of the list share a key. */
  ghost predicate UniqueKeys(fields: seq<Field>) {
    forall i, j :: 0 <= i < j < |fields| ==> fields[i].key != fields[j].key
  }

  /** The value posted for `key`; a field missing from the post reads as "". */
  function Posted(raw: map<string, string>, key: string): (v: string)
    ensures key in raw ==> v == raw[key]
    ensures key !in raw ==> v == ""
  {
    if key in raw then raw[key] else ""
  }

  /** True iff `value` is the value of one of the `choices`. */
  predicate IsChoice(choices: seq<Choice>, value: string) {
    exists i :: 0 <= i < |choices| && choices[i].value == value
  }

  /** True iff the framework rejects `value` for field `f`: an empty value
      is rejected exactly when the field is required, a non-empty one when
      it is longer than the declared maximum or is not among the choices. */
  predicate Rejects(f: Field, value: string) {
    if value == "" then f.required
    else match f
      case CharField(_, maxLength, _) => maxLength.Some? && |value| > maxLength.value
      case ChoiceField(_, choices, _) => !IsChoice(choices, value)
  }

  /** The framework's per-field cleaning: the cleaned data hold the posted
      value of every field that passes, and nothing for one that fails. */
  function CleanFields(fields: seq<Field>, raw: map<string, string>): (cleaned: map<string, string>)
    ensures forall k :: k in cleaned ==> cleaned[k] == Posted(raw, k)
    ensures forall i :: 0 <= i < |fields| && !Rejects(fields[i], Posted(raw, fields[i].key)) ==>
              fields[i].key in cleaned
    ensures UniqueKeys(fields) ==>
              forall i :: 0 <= i < |fields| && Rejects(fields[i], Posted(raw, fields[i].key)) ==>
                fields[i].key !in cleaned
    ensures forall k :: k in cleaned ==> k in Keys(fields)
  {
    if fields == [] then map[]
    else
      var rest := CleanFields(fields[1..], raw);
      var f := fields[0];
      if Rejects(f, Posted(raw, f.key)) then rest else rest[f.key := Posted(raw, f.key)]
  }

  /** True iff some field of the list rejects its posted value. */
  predicate AnyRejected(fields: seq<Field>, raw: map<string, string>) {
    exists i :: 0 <= i < |fields| && Rejects(fields[i], Posted(raw, fields[i].key))
  }
}
