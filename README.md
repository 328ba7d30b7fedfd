# Share dashboard panels: a Dafny model

This project models the parts of the OpenStack dashboard's shares panels
that decide things locally. Everything else in those panels only calls the
storage service (manila), the networking service (neutron) or the quota
service. The model has four parts:

- **Share-network table** (`share_network_tables.dfy`, module
  `ShareNetworkTables`). It decides when Delete, Edit, Activate and
  Deactivate are offered for a share network, based on status. It covers
  how the Activate action marks itself "disabled" and "(Quota exceeded)"
  when the tenant's share-network quota is used up, and clears that mark
  when quota is available. It also holds the status-to-health table and the
  text and id a row is shown by.
- **Share-network forms** (`share_network_forms.dfy`, module
  `ShareNetworkForms`). Building the create form fills in the network
  choices and inserts one subnet choice field per network at position 2 of
  the form's ordered field dictionary. The create handler copies the chosen
  subnet into `neutron_subnet_id` and calls the service. The
  add-security-service form builds a list of service choices.
- **Security-service forms** (`security_service_forms.dfy`, module
  `SecurityServiceForms`). This part covers the create form's declared
  fields (length limits, required fields, type choices) and its
  password/confirmation check. It also covers the create handler, which
  drops `confirm_password` before calling the service, and the update
  handler.
- **Shares tab** (`share_tabs.dfy`, module `ShareTabs`). An in-place loop
  gives each nameless share its id as its name. Another member returns the
  share listing, or the empty list when the listing fails.

`common.dfy` (module `Common`) holds what the four parts share:
`Option`, `Result`, user messages, `Choice` pairs, declared form fields,
and the form framework's per-field cleaning.

Remote results enter the model as parameters: quota, listings, fetched
objects, and the answers of create and update calls. When the source
catches a failure, that parameter is a `Result` and the failure path is
modelled. An empty string stands for a Python `None` or empty name, so both
count as false in `name or id` tests.

Two behaviours of the code worth stating plainly:

- `Activate.allowed` (share_networks/tables.py:68-79) returns
  `status == "INACTIVE"` whatever the quota. The quota only adds the
  `disabled` class and the "(Quota exceeded)" label suffix, so activation
  is not blocked by the check itself.
- `DELETABLE_STATES` (share_networks/tables.py:30) includes ERROR as well
  as INACTIVE.

## Model

| member | source | states |
|---|---|---|
| `ShareNetworkTables.DeleteAllowed` | openstack_dashboard/dashboards/project/shares/share_networks/tables.py:50-53 | Without a row, Delete is allowed. With a row, it is allowed iff the status is "INACTIVE" or "ERROR". |
| `ShareNetworkTables.EditAllowed` | openstack_dashboard/dashboards/project/shares/share_networks/tables.py:112-114 | Edit is allowed iff the fetched share network's status is "INACTIVE". |
| `ShareNetworkTables.DeactivateAllowed` | openstack_dashboard/dashboards/project/shares/share_networks/tables.py:97-102 | With a row, Deactivate is allowed iff no share references the network and its status is "ACTIVE"; any referencing share forces False. Without a row the check raises on reading the missing network's id. |
| `ShareNetworkTables.ActivateAction.Allowed` | openstack_dashboard/dashboards/project/shares/share_networks/tables.py:68-79 | With a row, returns `status == "INACTIVE"` whatever the quota; without one it raises on reading the status, after the look is updated. The new classes and label are `ApplyQuota` of the old ones. "disabled" is present afterwards iff the quota is used up; otherwise the label is reset. |
| `ShareNetworkTables.WithoutDisabled` | openstack_dashboard/dashboards/project/shares/share_networks/tables.py:77 | No "disabled" remains. Every remaining class was in the input, and the result is no longer than the input. |
| `ShareNetworkTables.WithoutDisabledAppend` | openstack_dashboard/dashboards/project/shares/share_networks/tables.py:77-78 | Filtering distributes over concatenation, so the kept classes keep their relative order. |
| `ShareNetworkTables.WithoutDisabledCounts` | openstack_dashboard/dashboards/project/shares/share_networks/tables.py:77-78 | Every class other than "disabled" keeps its number of occurrences, and "disabled" drops to zero. |
| `ShareNetworkTables.WithoutDisabledClean` | openstack_dashboard/dashboards/project/shares/share_networks/tables.py:77 | Classes without "disabled" are left unchanged. |
| `ShareNetworkTables.QuotaExhaustedMarksOnce` | openstack_dashboard/dashboards/project/shares/share_networks/tables.py:70-74 | With quota ≤ 0, "disabled" occurs exactly once afterwards if it occurred at most once before. " (Quota exceeded)" is appended only when "disabled" was absent; otherwise nothing changes. |
| `ShareNetworkTables.QuotaAvailableClears` | openstack_dashboard/dashboards/project/shares/share_networks/tables.py:75-78 | With quota > 0, no "disabled" remains, every other class keeps its count, and the label is "Activate Share Network". |
| `ShareNetworkTables.ApplyQuotaIdempotent` | openstack_dashboard/dashboards/project/shares/share_networks/tables.py:70-78 | Repeating the check with the same quota changes nothing further. |
| `ShareNetworkTables.QuotaRecoveryForgetsExhaustion` | openstack_dashboard/dashboards/project/shares/share_networks/tables.py:70-78 | An exhausted check followed by an available one gives the same look as the available check alone. |
| `ShareNetworkTables.LookupStatus` | openstack_dashboard/dashboards/project/shares/share_networks/tables.py:148-150 | The status column finds the first table entry for a status. It gives None iff no entry has that status. |
| `ShareNetworkTables.StatusHealthTable` | openstack_dashboard/dashboards/project/shares/share_networks/tables.py:130-136 | ACTIVE and INACTIVE are healthy (True). ACTIVATING and DEACTIVATING are in progress (None). ERROR is failed (False). |
| `ShareNetworkTables.UnknownStatusHasNoHealth` | openstack_dashboard/dashboards/project/shares/share_networks/tables.py:130-136 | Any other status has no entry in the table. |
| `ShareNetworkTables.ObjectDisplay` | openstack_dashboard/dashboards/project/shares/share_networks/tables.py:152-153 | A row's text is its name when the name is non-empty, else its id. |
| `ShareNetworkTables.ObjectId` | openstack_dashboard/dashboards/project/shares/share_networks/tables.py:155-156 | A row's key is always its id. |
| `ShareNetworkTables.DisplayMatchesId` | openstack_dashboard/dashboards/project/shares/share_networks/tables.py:152-156 | The text equals the key iff the network has no name or is named after its id. The text is never empty when the id is not. |
| `ShareNetworkForms.ListingChoices` | openstack_dashboard/dashboards/project/shares/share_networks/forms.py:51-72 | The placeholder `(' ', ' ')` comes first, then one `(id, name_or_id)` per listed network (the network choices) or subnet (a subnet field's choices), in listing order. The length is 1 + number of items. |
| `ShareNetworkForms.SubnetKey` | openstack_dashboard/dashboards/project/shares/share_networks/forms.py:57 | The key is "subnet-choices-" followed by the network id. |
| `ShareNetworkForms.SubnetKeyInjective` | openstack_dashboard/dashboards/project/shares/share_networks/forms.py:57 | Different network ids give different subnet keys. |
| `ShareNetworkForms.SubnetKeyNotDeclared` | openstack_dashboard/dashboards/project/shares/share_networks/forms.py:35-57 | A subnet key never equals a declared field key ("name", "neutron_net_id", "description"). |
| `ShareNetworkForms.WithoutShape` | openstack_dashboard/dashboards/project/shares/share_networks/forms.py:67 | Taking a key out of the field dictionary leaves the keys unique and the key absent. Every other field stays. |
| `ShareNetworkForms.InsertKeepsKeysUnique` | openstack_dashboard/dashboards/project/shares/share_networks/forms.py:67 | Inserting into the field dictionary keeps keys unique and keeps every field under another key. Nothing but the new field is added. |
| `ShareNetworkForms.InsertThenSetChoices` | openstack_dashboard/dashboards/project/shares/share_networks/forms.py:67-72 | Inserting an empty subnet field, then setting the choices of the field under its key, equals inserting the filled field at once. |
| `ShareNetworkForms.InsertAbsent` | openstack_dashboard/dashboards/project/shares/share_networks/forms.py:67 | A field under a key not yet present goes in at the given index, and nothing else moves. |
| `ShareNetworkForms.InsertSubnetFieldsKeys` | openstack_dashboard/dashboards/project/shares/share_networks/forms.py:54-72 | For any listing, the loop keeps keys unique and keeps the fields already there. It adds each network's subnet field and adds nothing else. |
| `ShareNetworkForms.CreateFieldsKeys` | openstack_dashboard/dashboards/project/shares/share_networks/forms.py:47-72 | The form keeps name, network and description. Each listed network has exactly one field named `subnet-choices-<id>`, and that field lists its subnets. |
| `ShareNetworkForms.InsertSubnetFieldsLayout` | openstack_dashboard/dashboards/project/shares/share_networks/forms.py:54-67 | With distinct ids, inserting at index 2 puts the subnet fields after the first two fields in reverse network order. |
| `ShareNetworkForms.CreateFieldsLayout` | openstack_dashboard/dashboards/project/shares/share_networks/forms.py:47-67 | With distinct ids there are 3 + n fields. "name" and "neutron_net_id" are at 0 and 1 and "description" is last. Network k's subnet field is at position `len - 2 - k`. |
| `ShareNetworkForms.CreateShareNetworkForm.constructor` | openstack_dashboard/dashboards/project/shares/share_networks/forms.py:47-72 | The loop leaves the field list equal to `CreateFields` of the listings, with unique keys. |
| `ShareNetworkForms.CreateShareNetworkForm.InsertSubnetField` | openstack_dashboard/dashboards/project/shares/share_networks/forms.py:57-72 | One loop turn inserts the network's subnet field at 2 and sets its choices. The result is the ordered-dictionary insertion of the filled field. |
| `ShareNetworkForms.HandleCreate` | openstack_dashboard/dashboards/project/shares/share_networks/forms.py:74-90 | The subnet under `subnet-choices-<chosen net>` is written to `neutron_subnet_id` and sent as the subnet. The service is called iff every key read is present. The handler returns the created network iff the call is made and succeeds, else False, with exactly one success or failure message. |
| `ShareNetworkForms.SecurityServiceChoices` | openstack_dashboard/dashboards/project/shares/share_networks/forms.py:125-132 | The placeholder comes first, then one entry per service. The value is the id and the label is the name, or the id when the name is empty. |
| `SecurityServiceForms.Clean` | openstack_dashboard/dashboards/project/shares/security_services/forms.py:63-69 | Rejects iff `password` is present and `confirm_password` is missing or different. Otherwise returns the data unchanged. |
| `SecurityServiceForms.ValidateIff` | openstack_dashboard/dashboards/project/shares/security_services/forms.py:43-69 | A post is valid iff every declared field accepts its value and the password equals its confirmation. |
| `SecurityServiceForms.MismatchNeverValid` | openstack_dashboard/dashboards/project/shares/security_services/forms.py:63-69 | Different password and confirmation make the post invalid, so the service is never called. |
| `SecurityServiceForms.ValidatedData` | openstack_dashboard/dashboards/project/shares/security_services/forms.py:43-61 | Valid data hold exactly the declared fields, each with its posted value. |
| `SecurityServiceForms.AcceptedConstraints` | openstack_dashboard/dashboards/project/shares/security_services/forms.py:44-59 | Accepted fields satisfy: dns_ip has 1-15 characters; name, server, domain and sid have 1-255 characters each; both passwords are non-empty; type is one of the three kinds. |
| `SecurityServiceForms.ValidatedConstraints` | openstack_dashboard/dashboards/project/shares/security_services/forms.py:44-69 | A valid post meets those constraints, and its two passwords agree. |
| `SecurityServiceForms.TypeOutsideChoicesInvalid` | openstack_dashboard/dashboards/project/shares/security_services/forms.py:55-59 | A type other than "active_directory", "ldap" or "kerberos" makes the post invalid. An empty type does too, because the field is required. |
| `SecurityServiceForms.HandleCreate` | openstack_dashboard/dashboards/project/shares/security_services/forms.py:71-83 | `confirm_password` is removed and every other key is sent unchanged. The handler returns the created service only on success (name present for the message), else False, with exactly one message. |
| `SecurityServiceForms.SubmitCreate` | openstack_dashboard/dashboards/project/shares/security_services/forms.py:63-83 | An invalid post sends nothing. A valid one sends its data without the confirmation, and its outcome is the created service iff the call succeeds. |
| `SecurityServiceForms.HandleUpdate` | openstack_dashboard/dashboards/project/shares/security_services/forms.py:91-103 | The id comes from `initial['security_service_id']`; without it the lookup error escapes. Returns True iff the update is sent and succeeds, with one info message. Otherwise one error message and a redirect to the shares index. |
| `ShareTabs.FixedNameFacts` | openstack_dashboard/dashboards/project/shares/shares/tabs.py:40-41 | A named share keeps its name and a nameless one gets its id. Fixing twice equals fixing once. |
| `ShareTabs.SetIdIfNameless` | openstack_dashboard/dashboards/project/shares/shares/tabs.py:36-41 | Every listed share with an empty name now has its id as its name. Named shares keep theirs. Ids and the list are untouched, and only listed shares are written. |
| `ShareTabs.GetSharesData` | openstack_dashboard/dashboards/project/shares/shares/tabs.py:43-52 | A failed listing gives the empty list and one error message. Otherwise the listing is returned as is. |
| `Common.CleanFields` | openstack_dashboard/dashboards/project/shares/security_services/forms.py:43-61 | Cleaned data hold the posted value of every field that accepts it. With unique keys, a field that rejects its value is absent. |
| `Common.NameOr` | openstack_dashboard/dashboards/project/shares/share_networks/forms.py:130-131 | `name or id`: the name when it is non-empty, else the fallback. |

## Left out

- The remote calls themselves (`manila.*`, `neutron.*`, `quotas.tenant_quota_usages`, `set_tenant_name_to_objects`) are network I/O. Their results are parameters of the model.
- A failing remote call inside an `allowed` check or a form constructor raises out of it. The model takes the successful result, because the source has no failure path there.
- `ShareNetworkTables.DeactivateAllowed`: the share listing is filtered by `share_network_id` on the service side. The model receives the filtered listing and requires that every share in it references the row's network.
- `ShareNetworkTables.ActivateAction.Allowed`: the check reads the quota usage's `available` count. A missing key in the usage dictionary is not modelled.
- `ShareNetworkTables.LookupStatus`: the framework matches status names case-insensitively, and that is not modelled. The model does not say what the framework shows for a status outside the table.
- `ShareNetworkForms.CreateFieldsLayout`: the reverse-order layout and the count 3 + n are proved only for listings with distinct network ids, which network ids are. For a listing that repeats an id, the model follows the ordered dictionary's re-insertion. Only the key-uniqueness and one-field-per-network facts (`CreateFieldsKeys`) are proved in that case.
- The form framework's exception classification and redirection (`exceptions.handle`, and the static tables in `openstack_dashboard/exceptions.py`) are not modelled. Every exception the handlers catch is modelled as one failure message, followed by False (create) or a redirect (update).
- `max_length` is declared as a string ("255", "15"). The model reads it as the integer it names. The form framework's conversion of that value is not part of this model.
- Per-field cleaning is modelled as three rules: empty means rejected when required, length is checked against `max_length`, and choice values must be in the list. Framework type coercion and widget behaviour are not modelled.
- Labels, widgets, HTML attributes (`switchable`, `data-net-<id>`), help texts and lazy translation are not modelled. Labels are plain strings.
- The share-network `Update.handle`, `AddSecurityServiceForm.handle` (an empty body), the table's column declarations, `UpdateRow.get_data`, `Create` link actions and `openstack_dashboard/dashboards/admin/shares/views.py` are view wiring over remote calls. They are not modelled.
- `@sensitive_variables` only affects error reports and is not modelled.
- The time-of-check/time-of-use race between an `allowed` check and the action it guards belongs to the remote service, so it is not modelled.
- In the source, `get_shares_data` does not call `_set_id_if_nameless`. The model keeps the two separate, as the source does.
