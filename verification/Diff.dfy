/** The comparison itself, change by change: it finds a breaking change exactly when the contracts are incompatible. */
module Diff {
  import opened Options
  import opened Sorting
  import opened Strings
  import opened Compatibility

  /** Appends a change when `happened`. */
  function Note(changes: seq<Change>, happened: bool, c: Change): (r: seq<Change>)
    ensures HasBreaking(r) <==> HasBreaking(changes) || (happened && c.severity == Breaking)
  {
    if happened then
      BreakingAppended(changes, c);
      changes + [c]
    else changes
  }

  method CompareFile(name: string, o: File, n: Option<File>) returns (changes: seq<Change>)
    ensures HasBreaking(changes) <==> !DomainOk(o, n)
  {
    changes := [];
    if n.None? {
      changes := Note(changes, o.domain.Some?, Change(Breaking, "domain_file_removed", "file." + name));
      return;
    }
    var path := "file." + name + ".domain";
    match (o.domain, n.value.domain) {
      case (None, Some(_)) => changes := Note(changes, true, Change(Info, "domain_declared", path));
      case (Some(_), None) => changes := Note(changes, true, Change(Breaking, "domain_removed", path));
      case (Some(a), Some(b)) =>
        changes := Note(changes, a.name != b.name, Change(Breaking, "domain_identity_changed", path));
        changes := Note(changes, a.version != b.version, Change(Warning, "domain_version_changed", path));
      case (None, None) =>
    }
  }

  method CompareField(path: string, o: Field, n: Field) returns (changes: seq<Change>)
    ensures HasBreaking(changes) <==> !SameField(o, n)
  {
    changes := Note([], o.name != n.name, Change(Breaking, "field_name_changed", path));
    changes := Note(changes, o.jsonName != n.jsonName, Change(Breaking, "field_json_name_changed", path));
    changes := Note(changes, o.fieldType != n.fieldType, Change(Breaking, "field_type_changed", path));
    changes := Note(changes, o.repeated != n.repeated, Change(Breaking, "field_cardinality_changed", path));
    changes := Note(changes, o.required != n.required, Change(Breaking, "field_required_changed", path));
    changes := Note(changes, o.optional != n.optional, Change(Breaking, "field_presence_changed", path));
  }

  method CompareMessage(o: Message, n: Message) returns (changes: seq<Change>)
    ensures HasBreaking(changes) <==> !MessageOk(o, n)
  {
    var root := "message." + o.fullName;
    changes := [];
    match (o.dto, n.dto) {
      case (None, Some(_)) => changes := Note(changes, true, Change(Info, "dto_declared", root + ".dto"));
      case (Some(_), None) => changes := Note(changes, true, Change(Breaking, "dto_removed", root + ".dto"));
      case (Some(a), Some(b)) => changes := Note(changes, a != b, Change(Breaking, "dto_kind_changed", root + ".dto"));
      case (None, None) =>
    }
    var kept := CompareFields(root, o, n);
    var added := CompareNewFields(o, n);
    BreakingJoined(changes, kept);
    BreakingJoined(changes + kept, added);
    changes := changes + kept + added;
  }

  method CompareFields(root: string, o: Message, n: Message) returns (changes: seq<Change>)
    ensures HasBreaking(changes) <==> exists f | f in o.fields :: !FieldKept(n, f)
  {
    var newByNumber := FieldsByNumber(n);
    var newByName := IndexBy(n.fields, (f: Field) => f.name);
    changes := [];
    for i := 0 to |o.fields|
      invariant HasBreaking(changes) <==> exists j | 0 <= j < i :: !FieldKept(n, o.fields[j])
    {
      var f := o.fields[i];
      var path := root + ".field." + f.name;
      if f.number !in newByNumber {
        var kind := if f.name in newByName then "field_number_changed" else "field_removed";
        changes := Note(changes, true, Change(Breaking, kind, path));
      } else {
        var more := CompareField(path, f, newByNumber[f.number]);
        BreakingJoined(changes, more);
        changes := changes + more;
      }
    }
  }

  method CompareNewFields(o: Message, n: Message) returns (changes: seq<Change>)
    ensures HasBreaking(changes) <==> exists f | f in n.fields :: !FieldWelcome(o, f)
  {
    var oldByNumber := FieldsByNumber(o);
    changes := [];
    for i := 0 to |n.fields|
      invariant HasBreaking(changes) <==> exists j | 0 <= j < i :: !FieldWelcome(o, n.fields[j])
    {
      var f := n.fields[i];
      var path := "message." + n.fullName + ".field." + f.name;
      changes := Note(changes, f.number !in oldByNumber, Change(if f.required then Breaking else Info, "field_added", path));
    }
  }

  method CompareEnum(o: Enum, n: Enum) returns (changes: seq<Change>)
    ensures HasBreaking(changes) <==> !EnumOk(o, n)
  {
    var newByName := ValuesByName(n);
    var oldNames: set<string> := {};
    changes := [];
    for i := 0 to |o.values|
      invariant HasBreaking(changes) <==> exists j | 0 <= j < i :: !ValueKept(n, o.values[j])
    {
      var v := o.values[i];
      oldNames := oldNames + {v.name};
      var path := "enum." + o.fullName + ".value." + v.name;
      if v.name !in newByName {
        changes := Note(changes, true, Change(Breaking, "enum_value_removed", path));
      } else {
        changes := Note(changes, newByName[v.name].number != v.number, Change(Breaking, "enum_number_changed", path));
      }
    }
    ghost var broken := HasBreaking(changes);
    for i := 0 to |n.values|
      invariant HasBreaking(changes) <==> broken
    {
      var v := n.values[i];
      changes := Note(changes, v.name !in oldNames, Change(Info, "enum_value_added", "enum." + n.fullName + ".value." + v.name));
    }
  }

  method CompareOperation(path: string, o: Option<Operation>, n: Option<Operation>) returns (changes: seq<Change>)
    ensures HasBreaking(changes) <==> !OperationOk(o, n)
  {
    changes := [];
    if o.None? || n.None? {
      changes := Note(changes, o.None? && n.Some?, Change(Info, "operation_declared", path + ".operation"));
      changes := Note(changes, o.Some? && n.None?, Change(Breaking, "operation_removed", path + ".operation"));
      return;
    }
    changes := CompareOperations(path + ".operation", o.value, n.value);
  }

  method CompareOperations(path: string, a: Operation, b: Operation) returns (changes: seq<Change>)
    ensures HasBreaking(changes) <==> !SamePolicy(a, b)
  {
    changes := Note([], a.id != b.id, Change(Breaking, "operation_id_changed", path));
    changes := Note(changes, a.useCase != b.useCase, Change(Breaking, "use_case_changed", path));
    changes := Note(changes, a.permissionMode != b.permissionMode, Change(Breaking, "permission_mode_changed", path));
    changes := Note(changes, NamesKey(a.permissions) != NamesKey(b.permissions), Change(Breaking, "permissions_changed", path));
    changes := Note(changes, NamesKey(a.authentication) != NamesKey(b.authentication), Change(Breaking, "authentication_changed", path));
    changes := Note(changes, a.tenantRequired != b.tenantRequired, Change(Breaking, "tenant_requirement_changed", path));
    changes := Note(changes, a.isPublic != b.isPublic, Change(Breaking, "public_policy_changed", path));
    changes := Note(changes, a.requestType != b.requestType, Change(Breaking, "operation_request_changed", path));
    changes := Note(changes, a.responseType != b.responseType, Change(Breaking, "operation_response_changed", path));
    changes := Note(changes, a.applicationMethod != b.applicationMethod, Change(Breaking, "application_method_changed", path));
  }

  method CompareHTTPBindings(path: string, o: seq<HTTPBinding>, n: seq<HTTPBinding>) returns (changes: seq<Change>)
    ensures HasBreaking(changes) <==> !BindingsOk(o, n)
  {
    var newSet := set b | b in n :: BindingKey(b);
    var oldSet := set b | b in o :: BindingKey(b);
    changes := [];
    for i := 0 to |o|
      invariant HasBreaking(changes) <==> exists j | 0 <= j < i :: !BindingKept(n, o[j])
    {
      changes := Note(changes, BindingKey(o[i]) !in newSet, Change(Breaking, "http_binding_removed", path));
    }
    ghost var broken := HasBreaking(changes);
    for i := 0 to |n|
      invariant HasBreaking(changes) <==> broken
    {
      changes := Note(changes, BindingKey(n[i]) !in oldSet, Change(Info, "http_binding_added", path));
    }
  }

  method CompareMethod(path: string, o: Method, n: Method) returns (changes: seq<Change>)
    ensures HasBreaking(changes) <==> !MethodOk(o, n)
  {
    changes := Note([], o.request != n.request, Change(Breaking, "method_request_changed", path));
    changes := Note(changes, o.response != n.response, Change(Breaking, "method_response_changed", path));
    changes := Note(changes, o.clientStreaming != n.clientStreaming || o.serverStreaming != n.serverStreaming,
                    Change(Breaking, "method_streaming_changed", path));
    changes := Note(changes, o.directives != n.directives, Change(Warning, "method_directives_changed", path));
    var operation := CompareOperation(path, o.operation, n.operation);
    BreakingJoined(changes, operation);
    changes := changes + operation;
    if o.operation.None? && n.operation.None? && LegacyKey(o.authorization) != LegacyKey(n.authorization) {
      var moved := o.authorization.Some? && n.authorization.Some? && o.authorization.value.operationId != n.authorization.value.operationId;
      changes := Note(changes, true,
                      if moved then Change(Breaking, "operation_id_changed", path) else Change(Warning, "authorization_policy_changed", path));
    }
    var bindings := CompareHTTPBindings(path, o.http, n.http);
    BreakingJoined(changes, bindings);
    changes := changes + bindings;
  }

  method CompareApplication(path: string, o: Option<Application>, n: Option<Application>) returns (changes: seq<Change>)
    ensures HasBreaking(changes) <==> !ApplicationOk(o, n)
  {
    changes := [];
    if o.None? || n.None? {
      changes := Note(changes, o.None? && n.Some?, Change(Info, "application_declared", path + ".application"));
      changes := Note(changes, o.Some? && n.None?, Change(Breaking, "application_removed", path + ".application"));
      return;
    }
    var before, after := OperationsById(o.value), OperationsById(n.value);
    changes := Note(changes, o.value.name != n.value.name, Change(Breaking, "application_identity_changed", path + ".application"));
    var kept := CompareInternal(path, before, after);
    BreakingJoined(changes, kept);
    var added := NoteAdded(after.Keys - before.Keys, "internal_operation_added", path + ".application.operation.");
    BreakingJoined(changes + kept, added);
    changes := changes + kept + added;
  }

  /** The internal operation is still there under its id, with its policy. */
  predicate InternalKept(o: map<string, Operation>, n: map<string, Operation>, id: string) {
    id in o ==> id in n && SamePolicy(o[id], n[id])
  }

  method CompareInternal(path: string, o: map<string, Operation>, n: map<string, Operation>) returns (changes: seq<Change>)
    ensures HasBreaking(changes) <==> exists id | id in o :: !InternalKept(o, n, id)
  {
    changes := [];
    var ids := SortedNames(o.Keys);
    for i := 0 to |ids|
      invariant HasBreaking(changes) <==> exists j | 0 <= j < i :: !InternalKept(o, n, ids[j])
    {
      var more := CompareInternalAt(path + ".application.operation." + ids[i], o, n, ids[i]);
      BreakingJoined(changes, more);
      changes := changes + more;
    }
    assert forall id | id in o :: exists j :: 0 <= j < |ids| && ids[j] == id;
  }

  method CompareInternalAt(path: string, o: map<string, Operation>, n: map<string, Operation>, id: string) returns (changes: seq<Change>)
    requires id in o
    ensures HasBreaking(changes) <==> !InternalKept(o, n, id)
  {
    if id !in n {
      changes := Note([], true, Change(Breaking, "internal_operation_removed", path));
    } else {
      changes := CompareOperation(path, Some(o[id]), Some(n[id]));
    }
  }

  /** What is new breaks nobody. */
  method NoteAdded(names: set<string>, kind: string, root: string) returns (changes: seq<Change>)
    ensures !HasBreaking(changes)
  {
    changes := [];
    var sorted := SortedNames(names);
    for i := 0 to |sorted|
      invariant !HasBreaking(changes)
    {
      changes := Note(changes, true, Change(Info, kind, root + sorted[i]));
    }
  }

  method CompareService(o: Service, n: Service) returns (changes: seq<Change>)
    ensures HasBreaking(changes) <==> !ServiceOk(o, n)
  {
    var path := "service." + o.fullName;
    changes := [];
    if o.domain != n.domain {
      changes := Note(changes, true,
                      if o.domain == "" then Change(Info, "service_domain_declared", path)
                      else if n.domain == "" then Change(Breaking, "service_domain_removed", path)
                      else Change(Breaking, "service_domain_changed", path));
    }
    var application := CompareApplication(path, o.application, n.application);
    BreakingJoined(changes, application);
    changes := changes + application;
    var methods := CompareMethods(path, MethodsByName(o), MethodsByName(n));
    BreakingJoined(changes, methods);
    changes := changes + methods;
    var added := NoteAdded(MethodsByName(n).Keys - MethodsByName(o).Keys, "method_added", "service." + n.fullName + ".method.");
    BreakingJoined(changes, added);
    changes := changes + added;
  }

  method CompareMethods(path: string, o: map<string, Method>, n: map<string, Method>) returns (changes: seq<Change>)
    ensures HasBreaking(changes) <==> exists name | name in o :: !(name in n && MethodOk(o[name], n[name]))
  {
    changes := [];
    var names := SortedNames(o.Keys);
    for i := 0 to |names|
      invariant HasBreaking(changes) <==> exists j | 0 <= j < i :: !(names[j] in n && MethodOk(o[names[j]], n[names[j]]))
    {
      var name := names[i];
      if name !in n {
        changes := Note(changes, true, Change(Breaking, "method_removed", path + ".method." + name));
      } else {
        var more := CompareMethod(path + ".method." + name, o[name], n[name]);
        BreakingJoined(changes, more);
        changes := changes + more;
      }
    }
    assert forall name | name in o :: exists j :: 0 <= j < |names| && names[j] == name;
  }

  // ----- whole contracts -----

  method CompareFiles(o: map<string, File>, n: map<string, File>) returns (changes: seq<Change>)
    ensures HasBreaking(changes) <==> exists name | name in o :: !DomainOk(o[name], Lookup(n, name))
  {
    changes := [];
    var names := SortedNames(o.Keys);
    for i := 0 to |names|
      invariant HasBreaking(changes) <==> exists j | 0 <= j < i :: !DomainOk(o[names[j]], Lookup(n, names[j]))
    {
      var more := CompareFile(names[i], o[names[i]], Lookup(n, names[i]));
      BreakingJoined(changes, more);
      changes := changes + more;
    }
    assert forall name | name in o :: exists j :: 0 <= j < |names| && names[j] == name;
  }

  method CompareMessages(o: map<string, Message>, n: map<string, Message>) returns (changes: seq<Change>)
    ensures HasBreaking(changes) <==> exists name | name in o :: !(name in n && MessageOk(o[name], n[name]))
  {
    changes := [];
    var names := SortedNames(o.Keys);
    for i := 0 to |names|
      invariant HasBreaking(changes) <==> exists j | 0 <= j < i :: !(names[j] in n && MessageOk(o[names[j]], n[names[j]]))
    {
      var name := names[i];
      if name !in n {
        changes := Note(changes, true, Change(Breaking, "message_removed", "message." + name));
      } else {
        var more := CompareMessage(o[name], n[name]);
        BreakingJoined(changes, more);
        changes := changes + more;
      }
    }
    assert forall name | name in o :: exists j :: 0 <= j < |names| && names[j] == name;
    var added := NoteAdded(n.Keys - o.Keys, "message_added", "message.");
    BreakingJoined(changes, added);
    changes := changes + added;
  }

  method CompareEnums(o: map<string, Enum>, n: map<string, Enum>) returns (changes: seq<Change>)
    ensures HasBreaking(changes) <==> exists name | name in o :: !(name in n && EnumOk(o[name], n[name]))
  {
    changes := [];
    var names := SortedNames(o.Keys);
    for i := 0 to |names|
      invariant HasBreaking(changes) <==> exists j | 0 <= j < i :: !(names[j] in n && EnumOk(o[names[j]], n[names[j]]))
    {
      var name := names[i];
      if name !in n {
        changes := Note(changes, true, Change(Breaking, "enum_removed", "enum." + name));
      } else {
        var more := CompareEnum(o[name], n[name]);
        BreakingJoined(changes, more);
        changes := changes + more;
      }
    }
    assert forall name | name in o :: exists j :: 0 <= j < |names| && names[j] == name;
    var added := NoteAdded(n.Keys - o.Keys, "enum_added", "enum.");
    BreakingJoined(changes, added);
    changes := changes + added;
  }

  method CompareServices(o: map<string, Service>, n: map<string, Service>) returns (changes: seq<Change>)
    ensures HasBreaking(changes) <==> exists name | name in o :: !(name in n && ServiceOk(o[name], n[name]))
  {
    changes := [];
    var names := SortedNames(o.Keys);
    for i := 0 to |names|
      invariant HasBreaking(changes) <==> exists j | 0 <= j < i :: !(names[j] in n && ServiceOk(o[names[j]], n[names[j]]))
    {
      var name := names[i];
      if name !in n {
        changes := Note(changes, true, Change(Breaking, "service_removed", "service." + name));
      } else {
        var more := CompareService(o[name], n[name]);
        BreakingJoined(changes, more);
        changes := changes + more;
      }
    }
    assert forall name | name in o :: exists j :: 0 <= j < |names| && names[j] == name;
    var added := NoteAdded(n.Keys - o.Keys, "service_added", "service.");
    BreakingJoined(changes, added);
    changes := changes + added;
  }

  function Rank(s: Severity): nat {
    match s
    case Breaking => 0
    case Warning => 1
    case Info => 2
  }

  /** Breaking changes come first, then by path and kind. */
  predicate ChangeBefore(x: Change, y: Change) {
    if x.severity != y.severity then Rank(x.severity) < Rank(y.severity)
    else if x.path != y.path then Before(x.path, y.path)
    else Before(x.kind, y.kind)
  }

  /** Comparing finds a breaking change exactly when the contracts are incompatible, and lists it first. */
  method Compare(baseline: Manifest, current: Manifest) returns (changes: seq<Change>)
    ensures HasBreaking(changes) <==> !Compatible(baseline, current)
    ensures InReportOrder(changes)
  {
    var files := CompareFiles(FilesByName(baseline), FilesByName(current));
    var messages := CompareMessages(MessagesByName(baseline), MessagesByName(current));
    var enums := CompareEnums(EnumsByName(baseline), EnumsByName(current));
    var services := CompareServices(ServicesByName(baseline), ServicesByName(current));
    BreakingJoined(files, messages);
    BreakingJoined(files + messages, enums);
    BreakingJoined(files + messages + enums, services);
    changes := files + messages + enums + services;
    changes := SortChanges(changes);
  }

  /** Breaking changes first, then warnings, then news; by path within each of them. */
  ghost predicate InReportOrder(changes: seq<Change>) {
    && (forall i, j | 0 <= i < j < |changes| && changes[j].severity.Breaking? :: changes[i].severity.Breaking?)
    && (forall i, j | 0 <= i < j < |changes| && changes[j].severity.Warning? :: !changes[i].severity.Info?)
    && (forall i, j | 0 <= i < j < |changes| && changes[i].severity == changes[j].severity :: !Before(changes[j].path, changes[i].path))
  }

  method SortChanges(changes: seq<Change>) returns (r: seq<Change>)
    ensures HasBreaking(r) <==> HasBreaking(changes)
    ensures InReportOrder(r) && multiset(r) == multiset(changes)
  {
    r := SortBy(ChangeBefore, changes);
    assert Comparison(ChangeBefore) by {
      NamesCompare();
    }
    SortBySorts(ChangeBefore, changes);
    UniqueInMultiset(changes, r);
    SortedReport(r);
  }

  lemma SortedReport(changes: seq<Change>)
    requires InOrder(ChangeBefore, changes)
    ensures InReportOrder(changes)
  {
    NamesCompare();
    assert forall i, j | 0 <= i < j < |changes| :: !ChangeBefore(changes[j], changes[i]);
  }
}
