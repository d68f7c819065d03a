/** Comparing two versions of a contract: which changes break clients, and what "none" means. */
module Compatibility {
  import opened Options
  import opened Strings
  import opened Text

  // ----- contracts -----

  datatype Domain = Domain(name: string, version: string)

  datatype File = File(name: string, domain: Option<Domain>)

  datatype FieldType = FieldType(kind: string, typeName: string, isMap: bool, mapKeyType: string, mapValueKind: string, mapValueType: string)

  datatype Field = Field(
    number: int, name: string, jsonName: string, fieldType: FieldType, repeated: bool, required: bool, optional: bool)

  datatype Message = Message(fullName: string, dto: Option<string>, fields: seq<Field>)

  datatype EnumValue = EnumValue(name: string, number: int)

  datatype Enum = Enum(fullName: string, values: seq<EnumValue>)

  datatype Operation = Operation(
    id: string, useCase: string, permissionMode: string, permissions: seq<string>, authentication: seq<string>,
    tenantRequired: bool, isPublic: bool, requestType: string, responseType: string, applicationMethod: string)

  /** A policy from before operations were typed. */
  datatype LegacyPolicy = LegacyPolicy(
    operationId: string, permissionMode: string, tenantRequired: bool, permissions: seq<string>, authentication: seq<string>)

  datatype HTTPBinding = HTTPBinding(verb: string, path: string, body: string, responseBody: string)

  datatype Method = Method(
    name: string, request: string, response: string, clientStreaming: bool, serverStreaming: bool, directives: string,
    operation: Option<Operation>, authorization: Option<LegacyPolicy>, http: seq<HTTPBinding>)

  datatype Application = Application(name: string, operations: seq<Operation>)

  datatype Service = Service(fullName: string, domain: string, application: Option<Application>, methods: seq<Method>)

  datatype Manifest = Manifest(files: seq<File>, messages: seq<Message>, enums: seq<Enum>, services: seq<Service>)

  // ----- changes -----

  datatype Severity = Breaking | Warning | Info

  datatype Change = Change(severity: Severity, kind: string, path: string)

  predicate HasBreaking(changes: seq<Change>) {
    exists c | c in changes :: c.severity == Breaking
  }

  lemma BreakingJoined(a: seq<Change>, b: seq<Change>)
    ensures HasBreaking(a + b) <==> HasBreaking(a) || HasBreaking(b)
  {
    assert forall c :: c in a + b <==> c in a || c in b;
  }

  lemma BreakingAppended(a: seq<Change>, c: Change)
    ensures HasBreaking(a + [c]) <==> HasBreaking(a) || c.severity == Breaking
  {
    BreakingJoined(a, [c]);
    assert HasBreaking([c]) <==> c.severity == Breaking by {
      assert c in [c];
    }
  }

  // ----- indexes: the last item of a name counts -----

  function IndexBy<K, V>(items: seq<V>, key: V -> K): map<K, V> {
    if items == [] then map[]
    else
      var last := items[|items| - 1];
      IndexBy(items[..|items| - 1], key)[key(last) := last]
  }

  lemma {:induction false} IndexHolds<K, V>(items: seq<V>, key: V -> K)
    ensures forall x | x in items :: key(x) in IndexBy(items, key)
    ensures forall k | k in IndexBy(items, key) :: IndexBy(items, key)[k] in items && key(IndexBy(items, key)[k]) == k
  {
    if items != [] {
      var init, last := items[..|items| - 1], items[|items| - 1];
      assert items == init + [last];
      IndexHolds(init, key);
    }
  }

  /** Without two items of one key, the index finds each item. */
  lemma IndexFinds<K, V>(items: seq<V>, key: V -> K, x: V)
    requires forall i, j | 0 <= i < j < |items| :: key(items[i]) != key(items[j])
    requires x in items
    ensures key(x) in IndexBy(items, key) && IndexBy(items, key)[key(x)] == x
  {
    IndexHolds(items, key);
    var y := IndexBy(items, key)[key(x)];
    var i :| 0 <= i < |items| && items[i] == x;
    var j :| 0 <= j < |items| && items[j] == y;
  }

  // ----- what must not change -----

  predicate DomainOk(o: File, n: Option<File>) {
    o.domain.Some? ==> n.Some? && n.value.domain.Some? && n.value.domain.value.name == o.domain.value.name
  }

  predicate SameField(o: Field, n: Field) {
    && o.name == n.name && o.jsonName == n.jsonName && o.fieldType == n.fieldType
    && o.repeated == n.repeated && o.required == n.required && o.optional == n.optional
  }

  predicate DtoOk(o: Message, n: Message) {
    o.dto.Some? ==> n.dto == o.dto
  }

  function FieldsByNumber(m: Message): map<int, Field> {
    IndexBy(m.fields, (f: Field) => f.number)
  }

  predicate FieldKept(n: Message, f: Field) {
    f.number in FieldsByNumber(n) && SameField(f, FieldsByNumber(n)[f.number])
  }

  predicate FieldWelcome(o: Message, f: Field) {
    f.number !in FieldsByNumber(o) ==> !f.required
  }

  predicate MessageOk(o: Message, n: Message) {
    DtoOk(o, n) && (forall f | f in o.fields :: FieldKept(n, f)) && (forall f | f in n.fields :: FieldWelcome(o, f))
  }

  function ValuesByName(e: Enum): map<string, EnumValue> {
    IndexBy(e.values, (v: EnumValue) => v.name)
  }

  predicate ValueKept(n: Enum, v: EnumValue) {
    v.name in ValuesByName(n) && ValuesByName(n)[v.name].number == v.number
  }

  predicate EnumOk(o: Enum, n: Enum) {
    forall v | v in o.values :: ValueKept(n, v)
  }

  function TrimAll(names: seq<string>): (r: seq<string>)
    ensures |r| == |names| && forall i | 0 <= i < |r| :: r[i] == Trim(names[i])
  {
    seq(|names|, i requires 0 <= i < |names| => Trim(names[i]))
  }

  /** Names as a normalized contract lists them: trimmed, without blanks and repetitions, sorted. */
  function NormalNames(names: seq<string>): seq<string> {
    StableStrings(TrimAll(names))
  }

  function NamesKey(names: seq<string>): string {
    Join(',', NormalNames(names))
  }

  predicate SamePolicy(o: Operation, n: Operation) {
    && o.id == n.id && o.useCase == n.useCase && o.permissionMode == n.permissionMode
    && NamesKey(o.permissions) == NamesKey(n.permissions) && NamesKey(o.authentication) == NamesKey(n.authentication)
    && o.tenantRequired == n.tenantRequired && o.isPublic == n.isPublic
    && o.requestType == n.requestType && o.responseType == n.responseType && o.applicationMethod == n.applicationMethod
  }

  predicate OperationOk(o: Option<Operation>, n: Option<Operation>) {
    o.Some? ==> n.Some? && SamePolicy(o.value, n.value)
  }

  function BindingKey(b: HTTPBinding): string {
    Join('|', [Upper(b.verb), b.path, b.body, b.responseBody])
  }

  predicate BindingKept(n: seq<HTTPBinding>, b: HTTPBinding) {
    exists c | c in n :: BindingKey(c) == BindingKey(b)
  }

  predicate BindingsOk(o: seq<HTTPBinding>, n: seq<HTTPBinding>) {
    forall b | b in o :: BindingKept(n, b)
  }

  function LegacyKey(p: Option<LegacyPolicy>): string {
    if p.None? then ""
    else
      var v := p.value;
      Join('|', [v.operationId, v.permissionMode, if v.tenantRequired then "true" else "false",
                 NamesKey(v.permissions), NamesKey(v.authentication)])
  }

  /** Two legacy policies that are both there may not change their operation. */
  predicate LegacyOk(o: Method, n: Method) {
    o.operation.None? && n.operation.None? && o.authorization.Some? && n.authorization.Some?
    && LegacyKey(o.authorization) != LegacyKey(n.authorization)
    ==> o.authorization.value.operationId == n.authorization.value.operationId
  }

  predicate SignatureOk(o: Method, n: Method) {
    o.request == n.request && o.response == n.response
    && o.clientStreaming == n.clientStreaming && o.serverStreaming == n.serverStreaming
  }

  predicate MethodOk(o: Method, n: Method) {
    SignatureOk(o, n) && OperationOk(o.operation, n.operation) && LegacyOk(o, n) && BindingsOk(o.http, n.http)
  }

  function OperationsById(a: Application): map<string, Operation> {
    IndexBy(a.operations, (o: Operation) => o.id)
  }

  predicate ApplicationOk(o: Option<Application>, n: Option<Application>) {
    o.Some? ==>
      && n.Some? && o.value.name == n.value.name
      && forall id | id in OperationsById(o.value) ::
           id in OperationsById(n.value) && SamePolicy(OperationsById(o.value)[id], OperationsById(n.value)[id])
  }

  function MethodsByName(s: Service): map<string, Method> {
    IndexBy(s.methods, (m: Method) => m.name)
  }

  predicate ServiceOk(o: Service, n: Service) {
    && (o.domain != "" ==> n.domain == o.domain)
    && ApplicationOk(o.application, n.application)
    && forall name | name in MethodsByName(o) ::
         name in MethodsByName(n) && MethodOk(MethodsByName(o)[name], MethodsByName(n)[name])
  }

  function FilesByName(m: Manifest): map<string, File> {
    IndexBy(m.files, (f: File) => f.name)
  }

  function MessagesByName(m: Manifest): map<string, Message> {
    IndexBy(m.messages, (x: Message) => x.fullName)
  }

  function EnumsByName(m: Manifest): map<string, Enum> {
    IndexBy(m.enums, (e: Enum) => e.fullName)
  }

  function ServicesByName(m: Manifest): map<string, Service> {
    IndexBy(m.services, (s: Service) => s.fullName)
  }

  function Lookup<K, V>(m: map<K, V>, k: K): Option<V> {
    if k in m then Some(m[k]) else None
  }

  predicate FilesOk(o: Manifest, n: Manifest) {
    forall name | name in FilesByName(o) :: DomainOk(FilesByName(o)[name], Lookup(FilesByName(n), name))
  }

  predicate MessagesOk(o: Manifest, n: Manifest) {
    forall name | name in MessagesByName(o) ::
      name in MessagesByName(n) && MessageOk(MessagesByName(o)[name], MessagesByName(n)[name])
  }

  predicate EnumsOk(o: Manifest, n: Manifest) {
    forall name | name in EnumsByName(o) :: name in EnumsByName(n) && EnumOk(EnumsByName(o)[name], EnumsByName(n)[name])
  }

  predicate ServicesOk(o: Manifest, n: Manifest) {
    forall name | name in ServicesByName(o) ::
      name in ServicesByName(n) && ServiceOk(ServicesByName(o)[name], ServicesByName(n)[name])
  }

  /** A client of the old contract can use the new one. */
  predicate Compatible(o: Manifest, n: Manifest) {
    FilesOk(o, n) && MessagesOk(o, n) && EnumsOk(o, n) && ServicesOk(o, n)
  }
}
