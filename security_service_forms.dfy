/** The security-service forms: the create form's declared fields, its
    password cross-check, its submit handler (which drops the confirmation
    before calling the service), and the update form's handler. */
module SecurityServiceForms {
  import opened Common

  /** A security service as the storage service lists it; an empty `name`
      stands for a service without a name. */
  datatype SecurityService = SecurityService(id: string, name: string)

  /** The answer of a remote call that returns nothing of interest. */
  datatype Unit = Unit

  const TypeChoices: seq<Choice> := [
    Choice("", ""),
    Choice("active_directory", "Active Directory"),
    Choice("ldap", "LDAP"),
    Choice("kerberos", "Kerberos")
  ]

  /** The create form's fields in declaration order. */
  const CreateFormFields: seq<Field> := [
    CharField("name", Some(255), true),
    CharField("dns_ip", Some(15), true),
    CharField("server", Some(255), true),
    CharField("domain", Some(255), true),
    CharField("sid", Some(255), true),
    CharField("password", None, true),
    CharField("confirm_password", None, true),
    ChoiceField("type", TypeChoices, true),
    CharField("description", None, false)
  ]

  const PasswordMismatchText: string := "Passwords do not match."

  /** The create form's own check on the per-field cleaned data: a present
      password must equal the confirmation, and a missing confirmation
      counts as a different one. Data that pass come back unchanged. */
  function Clean(data: map<string, string>): (r: Result<map<string, string>, string>)
    ensures r.Err? <==> "password" in data && ("confirm_password" !in data || data["confirm_password"] != data["password"])
    ensures r.Err? ==> r.error == PasswordMismatchText
    ensures r.Ok? ==> r.value == data
  {
    if "password" in data && (if "confirm_password" in data then data["password"] != data["confirm_password"] else true)
    then Err(PasswordMismatchText)
    else Ok(data)
  }

  /** The whole validation of a post: the per-field cleaning, then `Clean`.
      The form is valid, and its cleaned data are handed to the handler,
      only when neither reports an error. */
  function Validate(raw: map<string, string>): Option<map<string, string>> {
    var cleaned := CleanFields(CreateFormFields, raw);
    if AnyRejected(CreateFormFields, raw) then None
    else match Clean(cleaned)
      case Ok(d) => Some(d)
      case Err(_) => None
  }

  /** A post is valid exactly when every field accepts its value and the
      password equals its confirmation. */
  lemma ValidateIff(raw: map<string, string>)
    ensures Validate(raw).Some? <==>
              !AnyRejected(CreateFormFields, raw) && Posted(raw, "password") == Posted(raw, "confirm_password")
  {
    if !AnyRejected(CreateFormFields, raw) {
      PasswordsCleaned(raw);
    }
  }

  /** When every field accepts its value, both passwords reach `Clean`
      as posted. */
  lemma PasswordsCleaned(raw: map<string, string>)
    requires !AnyRejected(CreateFormFields, raw)
    ensures var cleaned := CleanFields(CreateFormFields, raw);
            && "password" in cleaned && cleaned["password"] == Posted(raw, "password")
            && "confirm_password" in cleaned && cleaned["confirm_password"] == Posted(raw, "confirm_password")
  {
    assert !Rejects(CreateFormFields[5], Posted(raw, "password"));
    assert !Rejects(CreateFormFields[6], Posted(raw, "confirm_password"));
  }

  /** A post whose password and confirmation differ never reaches the
      handler, so the service is never called for it. */
  lemma MismatchNeverValid(raw: map<string, string>)
    requires Posted(raw, "password") != Posted(raw, "confirm_password")
    ensures Validate(raw).None?
  {
    ValidateIff(raw);
  }

  /** A valid post hands on the posted value of every declared field,
      and nothing else. */
  lemma ValidatedData(raw: map<string, string>)
    requires Validate(raw).Some?
    ensures var d := Validate(raw).value;
            && (forall k :: k in d ==> k in Keys(CreateFormFields) && d[k] == Posted(raw, k))
            && (forall i :: 0 <= i < |CreateFormFields| ==> CreateFormFields[i].key in d)
  {
    var d := Validate(raw).value;
    assert d == CleanFields(CreateFormFields, raw);
    forall i | 0 <= i < |CreateFormFields| ensures CreateFormFields[i].key in d {
      assert !Rejects(CreateFormFields[i], Posted(raw, CreateFormFields[i].key));
    }
  }

  /** The field at position `i` accepted the value posted for it. */
  lemma Accepted(raw: map<string, string>, i: nat, f: Field)
    requires !AnyRejected(CreateFormFields, raw)
    requires i < |CreateFormFields| && CreateFormFields[i] == f
    ensures !Rejects(f, Posted(raw, f.key))
  {
  }

  /** What every field accepting its value guarantees: the declared
      lengths hold, every required field is non-empty and the type is one
      of the three kinds. */
  lemma AcceptedConstraints(raw: map<string, string>)
    requires !AnyRejected(CreateFormFields, raw)
    ensures 0 < |Posted(raw, "name")| <= 255 && 0 < |Posted(raw, "dns_ip")| <= 15
    ensures 0 < |Posted(raw, "server")| <= 255 && 0 < |Posted(raw, "domain")| <= 255 && 0 < |Posted(raw, "sid")| <= 255
    ensures Posted(raw, "password") != "" && Posted(raw, "confirm_password") != ""
    ensures Posted(raw, "type") in ["active_directory", "ldap", "kerberos"]
  {
    Accepted(raw, 0, CharField("name", Some(255), true));
    Accepted(raw, 1, CharField("dns_ip", Some(15), true));
    Accepted(raw, 2, CharField("server", Some(255), true));
    Accepted(raw, 3, CharField("domain", Some(255), true));
    Accepted(raw, 4, CharField("sid", Some(255), true));
    Accepted(raw, 5, CharField("password", None, true));
    Accepted(raw, 6, CharField("confirm_password", None, true));
    Accepted(raw, 7, ChoiceField("type", TypeChoices, true));
    var t := Posted(raw, "type");
    assert t != "";
    var k :| 0 <= k < |TypeChoices| && TypeChoices[k].value == t;
    assert k != 0;
  }

  /** What a valid post guarantees: the constraints above, and the two
      passwords agree. */
  lemma ValidatedConstraints(raw: map<string, string>)
    requires Validate(raw).Some?
    ensures 0 < |Posted(raw, "name")| <= 255 && 0 < |Posted(raw, "dns_ip")| <= 15
    ensures 0 < |Posted(raw, "server")| <= 255 && 0 < |Posted(raw, "domain")| <= 255 && 0 < |Posted(raw, "sid")| <= 255
    ensures Posted(raw, "password") != "" && Posted(raw, "password") == Posted(raw, "confirm_password")
    ensures Posted(raw, "type") in ["active_directory", "ldap", "kerberos"]
  {
    ValidateIff(raw);
    AcceptedConstraints(raw);
  }

  /** A type the form leaves out of its choices, or leaves empty, makes
      the post invalid. */
  lemma TypeOutsideChoicesInvalid(raw: map<string, string>)
    requires Posted(raw, "type") !in ["active_directory", "ldap", "kerberos"]
    ensures Validate(raw).None?
  {
    if Validate(raw).Some? {
      ValidatedConstraints(raw);
    }
  }

  // ---------------------------------------------------------------------
  // Submitting the create form

  const CreateFailedText: string := "Unable to create security service."

  function CreateSucceededText(name: string): string {
    "Successfully created security service: " + name
  }

  /** The create handler, given the cleaned data. It removes
      "confirm_password" and sends every other key to the service;
      `response` is the service's answer to that call. A missing key or a
      failed call is reported once and gives False. */
  method HandleCreate(data: map<string, string>, response: Result<SecurityService, ApiError>)
    returns (sent: Option<map<string, string>>, outcome: Outcome<SecurityService>, messages: seq<Message>)
    ensures sent.Some? <==> "confirm_password" in data
    ensures sent.Some? ==> sent.value == data - {"confirm_password"}
    ensures sent.Some? ==> sent.value.Keys == data.Keys - {"confirm_password"} &&
                           forall k :: k in sent.value ==> sent.value[k] == data[k]
    ensures outcome.Returned? <==> sent.Some? && response.Ok? && "name" in data
    ensures outcome.Returned? ==> outcome.value == response.value
    ensures |messages| == 1
    ensures outcome.Returned? ==> messages[0] == SuccessMessage(CreateSucceededText(data["name"]))
    ensures outcome.ReturnedFalse? ==> messages[0] == ErrorMessage(CreateFailedText)
  {
    sent, outcome, messages := None, ReturnedFalse, [ErrorMessage(CreateFailedText)];
    if "confirm_password" !in data {
      return;
    }
    var payload := data - {"confirm_password"};
    sent := Some(payload);
    if response.Err? {
      return;
    }
    // the success message reads the name back after the service was called
    if "name" !in payload {
      return;
    }
    outcome := Returned(response.value);
    messages := [SuccessMessage(CreateSucceededText(payload["name"]))];
  }

  /** A whole post of the create form: validation, then the handler. An
      invalid post sends nothing and produces no outcome. */
  method SubmitCreate(raw: map<string, string>, response: Result<SecurityService, ApiError>)
    returns (sent: Option<map<string, string>>, outcome: Option<Outcome<SecurityService>>)
    ensures Validate(raw).None? ==> sent.None? && outcome.None?
    ensures Validate(raw).Some? ==>
              && sent == Some(Validate(raw).value - {"confirm_password"})
              && outcome.Some?
              && (outcome.value.Returned? <==> response.Ok?)
              && (outcome.value.Returned? ==> outcome.value.value == response.value)
    ensures Posted(raw, "password") != Posted(raw, "confirm_password") ==> sent.None?
  {
    ValidateIff(raw);
    var valid := Validate(raw);
    if valid.None? {
      return None, None;
    }
    var d := valid.value;
    ValidatedData(raw);
    assert "confirm_password" == CreateFormFields[6].key && "name" == CreateFormFields[0].key;
    var payload, result, _ := HandleCreate(d, response);
    sent, outcome := payload, Some(result);
  }

  // ---------------------------------------------------------------------
  // Submitting the update form

  /** The update call: which service, its new name and description. */
  datatype UpdateRequest = UpdateRequest(id: string, name: string, description: string)

  /** What the update handler gives: True; a failure reported with a
      redirect to the shares index; or the lookup error that escapes it
      when the form was built without a service id. */
  datatype UpdateOutcome = ReturnedTrue | ReportedWithRedirect(url: string) | RaisedMissingKey(key: string)

  const IndexUrl: string := "horizon:project:shares:index"
  const UpdateFailedText: string := "Unable to update security service."

  function UpdatingText(name: string): string {
    "Updating security service \"" + name + "\""
  }

  /** The update handler. The id comes from the form's initial values and
      is read before the guarded block; `response` is the service's answer
      to the update call. */
  method HandleUpdate(initial: map<string, string>, data: map<string, string>, response: Result<Unit, ApiError>)
    returns (sent: Option<UpdateRequest>, outcome: UpdateOutcome, messages: seq<Message>)
    ensures "security_service_id" !in initial ==>
              sent.None? && outcome == RaisedMissingKey("security_service_id") && messages == []
    ensures sent.Some? <==> "security_service_id" in initial && "name" in data && "description" in data
    ensures sent.Some? ==> sent.value == UpdateRequest(initial["security_service_id"], data["name"], data["description"])
    ensures outcome == ReturnedTrue <==> sent.Some? && response.Ok?
    ensures outcome == ReturnedTrue ==> messages == [InfoMessage(UpdatingText(data["name"]))]
    ensures "security_service_id" in initial && outcome != ReturnedTrue ==>
              outcome == ReportedWithRedirect(IndexUrl) && messages == [ErrorMessage(UpdateFailedText)]
  {
    if "security_service_id" !in initial {
      return None, RaisedMissingKey("security_service_id"), [];
    }
    var id := initial["security_service_id"];
    sent, outcome, messages := None, ReportedWithRedirect(IndexUrl), [ErrorMessage(UpdateFailedText)];
    if "name" !in data || "description" !in data {
      return;
    }
    sent := Some(UpdateRequest(id, data["name"], data["description"]));
    if response.Ok? {
      outcome, messages := ReturnedTrue, [InfoMessage(UpdatingText(data["name"]))];
    }
  }
}
