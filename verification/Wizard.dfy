/**
  The create-instance wizard: its steps, the validation it holds, and what it offers to create
  (CreateInstanceWizardPage.tsx).
 */
module Wizard {
  import opened Options
  import opened Text

  const STEPS := 7

  // -- The form -----------------------------------------------------------------------------

  datatype Attachment = Attachment(networkId: string, ip: string)

  datatype HaproxyForm = HaproxyForm(mode: string, bindPort: int, serverAddress: string, serverPort: int)

  datatype FrrForm = FrrForm(
    hostname: string, routerId: string, localAs: int, neighbor: string, remoteAs: int, password: string,
    networks: string)

  datatype KeycloakForm = KeycloakForm(
    realm: string, adminUser: string, adminPass: string, publicBaseUrl: string, guiSecret: string)

  datatype GatewayForm = GatewayForm(upstream: string, issuer: string, clientId: string, clientSecret: string)

  datatype Form = Form(serviceType: string, name: string, imageVersion: string, attachments: seq<Attachment>,
                       haproxy: HaproxyForm, frr: FrrForm, keycloak: KeycloakForm, gateway: GatewayForm)

  datatype Service = Service(serviceType: string, enabled: bool, defaultVersion: string)

  predicate IsKeycloak(serviceType: string) {
    serviceType == "keycloak-mgmt" || serviceType == "keycloak-apps"
  }

  predicate IsGateway(serviceType: string) {
    serviceType == "auth-gateway"
  }

  predicate Filled(s: string) {
    JsTrim(s) != ""
  }

  function Or(s: string, default: string): string {
    if s != "" then s else default
  }

  // -- The configuration a form stands for --------------------------------------------------

  datatype Neighbor = Neighbor(address: string, remoteAs: int, password: Option<string>)

  /** The parts of a configuration that depend on the form. */
  datatype Configuration =
    | Haproxy(mode: string, bindPort: int, serverAddress: string, serverPort: int)
    | Frr(hostname: string, routerId: string, localAs: int, neighbors: seq<Neighbor>, networks: seq<string>)
    | Keycloak(realm: string, adminUsername: string, adminPassword: string, guiClientSecret: string,
               publicBaseUrl: Option<string>)
    | Gateway(upstreamUrl: string, oidcIssuerUrl: string, clientId: string, clientSecret: string)

  function FirstIp(attachments: seq<Attachment>): string {
    if attachments == [] then ""
    else Or(JsTrim(attachments[0].ip), FirstIp(attachments[1..]))
  }

  function TrimmedLines(lines: seq<string>): seq<string> {
    if lines == [] then []
    else (if JsTrim(lines[0]) != "" then [JsTrim(lines[0])] else []) + TrimmedLines(lines[1..])
  }

  function FrrConfiguration(f: Form): Configuration {
    var ip := FirstIp(f.attachments);
    var routerId := Or(Or(JsTrim(f.frr.routerId), Split(ip, '/')[0]), "1.1.1.1");
    Frr(Or(Or(f.frr.hostname, f.name), "ax-frr"), routerId, f.frr.localAs,
        if f.frr.neighbor != "" then [Neighbor(f.frr.neighbor, f.frr.remoteAs, NonEmpty(f.frr.password))] else [],
        TrimmedLines(Split(f.frr.networks, '\n')))
  }

  function ConfigurationOf(f: Form): Configuration {
    if f.serviceType == "frr" then FrrConfiguration(f)
    else if IsKeycloak(f.serviceType) then
      Keycloak(Or(f.keycloak.realm, "axionet"), Or(f.keycloak.adminUser, "admin"), Or(f.keycloak.adminPass, "admin"),
               Or(f.keycloak.guiSecret, "axionet-gui-lab-secret"), NonEmpty(JsTrim(f.keycloak.publicBaseUrl)))
    else if IsGateway(f.serviceType) then
      Gateway(Or(JsTrim(f.gateway.upstream), "http://127.0.0.1:8080"), JsTrim(f.gateway.issuer),
              Or(JsTrim(f.gateway.clientId), "axionet-app"),
              Or(JsTrim(f.gateway.clientSecret), "axionet-app-lab-secret"))
    else Haproxy(f.haproxy.mode, f.haproxy.bindPort, Or(f.haproxy.serverAddress, "127.0.0.1"), f.haproxy.serverPort)
  }

  function Selected(catalogue: seq<Service>, serviceType: string): Option<Service> {
    if catalogue == [] then None
    else if catalogue[0].serviceType == serviceType then Some(catalogue[0])
    else Selected(catalogue[1..], serviceType)
  }

  function Version(catalogue: seq<Service>, f: Form): string {
    var selected := Selected(catalogue, f.serviceType);
    Or(Or(f.imageVersion, if selected.Some? then selected.value.defaultVersion else ""), "3.2.6")
  }

  /** What is sent for validation, and again for creation. */
  datatype Request = Request(serviceType: string, version: string, configuration: Configuration)

  function Current(catalogue: seq<Service>, f: Form): Request {
    Request(f.serviceType, Version(catalogue, f), ConfigurationOf(f))
  }

  // -- The machine --------------------------------------------------------------------------

  datatype Validation = Validation(ok: bool, request: Request)

  /**
    `catalogue` is what the page last fetched; `pending` is the validation request under way, during
    which the button that sends one is disabled.
   */
  datatype State = State(
    catalogue: seq<Service>, step: int, form: Form, validation: Option<Validation>, pending: Option<Request>)
  {
    function Now(): Request {
      Current(catalogue, form)
    }
  }

  datatype Action =
    | Pick(service: Service)
    | Edit(form: Form)
    | Back
    | Next
    | Validate
    | Reply(ok: bool)
    | ReplyLost
    | Refresh(catalogue: seq<Service>)

  predicate CanNext(s: State) {
    var f := s.form;
    match s.step
    case 1 =>
      var selected := Selected(s.catalogue, f.serviceType);
      selected.Some? && selected.value.enabled
    case 2 => JsTrim(f.name) != ""
    case 3 => (IsKeycloak(f.serviceType) || IsGateway(f.serviceType)) ==>
      exists a :: a in f.attachments && a.networkId != ""
    case 4 => (IsKeycloak(f.serviceType) || IsGateway(f.serviceType)) ==>
      exists a :: a in f.attachments && a.networkId != "" && JsTrim(a.ip) != ""
    case 5 =>
      if f.serviceType == "frr" then
        f.frr.localAs > 0 && (JsTrim(f.frr.routerId) != "" || exists a :: a in f.attachments && JsTrim(a.ip) != "")
      else if IsKeycloak(f.serviceType) then
        JsTrim(f.keycloak.realm) != "" && JsTrim(f.keycloak.adminUser) != "" && JsTrim(f.keycloak.adminPass) != ""
      else if IsGateway(f.serviceType) then
        && JsTrim(f.gateway.upstream) != "" && JsTrim(f.gateway.issuer) != ""
        && JsTrim(f.gateway.clientId) != "" && JsTrim(f.gateway.clientSecret) != ""
      else f.haproxy.bindPort > 0 && f.haproxy.serverPort > 0
    case 6 => s.validation.Some? && s.validation.value.ok
    case _ => true
  }

  /** The fields on show at a step are the only ones an edit can change. */
  predicate Editable(step: int, f: Form, g: Form) {
    match step
    case 2 => g == f.(name := g.name, imageVersion := g.imageVersion)
    case 3 => g == f.(attachments := g.attachments)
    case 4 =>
      && g == f.(attachments := g.attachments)
      && |g.attachments| == |f.attachments|
      && forall i :: 0 <= i < |f.attachments| ==>
           && g.attachments[i].networkId == f.attachments[i].networkId
           && (f.attachments[i].networkId == "" ==> g.attachments[i] == f.attachments[i])
    case 5 =>
      if f.serviceType == "frr" then g == f.(frr := g.frr)
      else if IsKeycloak(f.serviceType) then g == f.(keycloak := g.keycloak)
      else if IsGateway(f.serviceType) then g == f.(gateway := g.gateway)
      else g == f.(haproxy := g.haproxy)
    case _ => false
  }

  /** The state after an action; `None` when the page does not offer it. */
  function Apply(s: State, a: Action): Option<State> {
    match a
    case Pick(service) =>
      if s.step == 1 && service in s.catalogue && service.enabled then
        Some(s.(form := s.form.(serviceType := service.serviceType, imageVersion := service.defaultVersion),
                validation := None))
      else None
    case Edit(form) => if Editable(s.step, s.form, form) then Some(s.(form := form)) else None
    case Back =>
      if s.step > 1 then Some(s.(step := s.step - 1, validation := if s.step == 7 then None else s.validation))
      else None
    case Next =>
      if s.step < STEPS && CanNext(s) then
        Some(s.(step := s.step + 1, validation := if s.step == 5 then None else s.validation))
      else None
    case Validate => if s.step == 6 && s.pending.None? then Some(s.(pending := Some(s.Now()))) else None
    case Reply(ok) =>
      if s.pending.Some? then Some(s.(validation := Some(Validation(ok, s.pending.value)), pending := None)) else None
    case ReplyLost => if s.pending.Some? then Some(s.(pending := None)) else None
    case Refresh(catalogue) => Some(s.(catalogue := catalogue))
  }

  function Start(catalogue: seq<Service>, form: Form): State {
    State(catalogue, 1, form, None, None)
  }

  function Run(s: State, actions: seq<Action>): Option<State>
    decreases |actions|
  {
    if actions == [] then Some(s)
    else
      var next := Apply(s, actions[0]);
      if next.None? then None else Run(next.value, actions[1..])
  }

  /** From step 6 on, a refreshed catalogue that changes the version in force. */
  predicate Unsettles(s: State, a: Action) {
    a.Refresh? && s.step >= 6 && Current(a.catalogue, s.form) != s.Now()
  }

  /** No step is taken back or forth while a validation is under way, and the catalogue stays put from step 6 on. */
  predicate Timely(s: State, actions: seq<Action>)
    decreases |actions|
  {
    actions == [] ||
    var next := Apply(s, actions[0]);
    && ((actions[0].Back? || actions[0].Next?) ==> s.pending.None?)
    && !Unsettles(s, actions[0])
    && (next.Some? ==> Timely(next.value, actions[1..]))
  }

  /** The create button is enabled. */
  predicate CreateOffered(s: State) {
    s.step == STEPS && s.validation.Some? && s.validation.value.ok
  }

  // -- The guard and the defaults -----------------------------------------------------------

  lemma {:induction false} FirstIpFound(attachments: seq<Attachment>)
    ensures FirstIp(attachments) != "" <==> exists a :: a in attachments && JsTrim(a.ip) != ""
  {
    if attachments == [] {
    } else {
      FirstIpFound(attachments[1..]);
      assert attachments == [attachments[0]] + attachments[1..];
    }
  }

  lemma FirstSegment(s: string)
    requires s != ""
    ensures Split(s, '/')[0] == "" <==> s[0] == '/'
  {
  }

  /**
    The configuration with the fields as typed (trimmed where the page trims them) and nothing in the
    place of blank ones.
   */
  function ConfigurationAsTyped(f: Form): Configuration {
    if f.serviceType == "frr" then
      var typed := JsTrim(f.frr.routerId);
      var peer := Neighbor(f.frr.neighbor, f.frr.remoteAs, if f.frr.password == "" then None else Some(f.frr.password));
      Frr(f.frr.hostname, if typed != "" then typed else Split(FirstIp(f.attachments), '/')[0], f.frr.localAs,
          if f.frr.neighbor == "" then [] else [peer], TrimmedLines(Split(f.frr.networks, '\n')))
    else if IsKeycloak(f.serviceType) then
      Keycloak(f.keycloak.realm, f.keycloak.adminUser, f.keycloak.adminPass, f.keycloak.guiSecret,
               if JsTrim(f.keycloak.publicBaseUrl) == "" then None else Some(JsTrim(f.keycloak.publicBaseUrl)))
    else if IsGateway(f.serviceType) then
      Gateway(JsTrim(f.gateway.upstream), JsTrim(f.gateway.issuer), JsTrim(f.gateway.clientId),
              JsTrim(f.gateway.clientSecret))
    else Haproxy(f.haproxy.mode, f.haproxy.bindPort, f.haproxy.serverAddress, f.haproxy.serverPort)
  }

  /** The blank fields that step 5 lets through although something else is sent for them. */
  predicate NoDefaultInReach(f: Form) {
    if f.serviceType == "frr" then
      && f.frr.hostname != ""
      && (JsTrim(f.frr.routerId) != "" || (FirstIp(f.attachments) != "" && FirstIp(f.attachments)[0] != '/'))
    else if IsKeycloak(f.serviceType) then f.keycloak.guiSecret != ""
    else if IsGateway(f.serviceType) then true
    else f.haproxy.serverAddress != ""
  }

  lemma TrimOfEmpty()
    ensures JsTrim("") == ""
  {
  }

  /**
    Past step 5, what is sent is what was typed exactly when no default is in reach: for Keycloak,
    the GUI secret is not blank; for HAProxy, the server address is not blank; for FRR, the hostname
    is not blank, and a router id is typed or the first address does not begin with a slash. For the
    gateway the guard of the step leaves no default in reach.
   */
  lemma SentAsTypedExactly(s: State)
    requires s.step == 5 && CanNext(s)
    ensures ConfigurationOf(s.form) == ConfigurationAsTyped(s.form) <==> NoDefaultInReach(s.form)
  {
    var f := s.form;
    TrimOfEmpty();
    if f.serviceType == "frr" {
      FirstIpFound(f.attachments);
      if FirstIp(f.attachments) != "" {
        FirstSegment(FirstIp(f.attachments));
      }
    }
  }

  /**
    The fields that the step insists on are always sent as typed: realm and administrator for
    Keycloak, every field for the gateway. The FRR router id is the typed one, else what stands
    before the slash of the first address, else (when nothing does) the built-in one.
   */
  lemma GuardedFieldsAsTyped(s: State)
    requires s.step == 5 && CanNext(s)
    ensures var f, c := s.form, ConfigurationOf(s.form);
            && (c.Keycloak? ==>
                  && c.realm == f.keycloak.realm && c.adminUsername == f.keycloak.adminUser
                  && c.adminPassword == f.keycloak.adminPass)
            && (c.Gateway? ==>
                  && c.upstreamUrl == JsTrim(f.gateway.upstream) && c.oidcIssuerUrl == JsTrim(f.gateway.issuer)
                  && c.clientId == JsTrim(f.gateway.clientId) && c.clientSecret == JsTrim(f.gateway.clientSecret))
            && (c.Frr? ==>
                  var typed, ip := JsTrim(f.frr.routerId), FirstIp(f.attachments);
                  && (typed != "" || ip != "")
                  && c.routerId == if typed != "" then typed else if ip[0] == '/' then "1.1.1.1" else Split(ip, '/')[0])
  {
    var f := s.form;
    FirstIpFound(f.attachments);
    if FirstIp(f.attachments) == "" {
    } else {
      FirstSegment(FirstIp(f.attachments));
    }
    TrimOfEmpty();
  }

  /**
    All three kinds of default can be reached: a form that step 5 lets through may leave each of those
    fields blank.
   */
  lemma DefaultsInReach(s: State)
    requires s.step == 5
    ensures s.form.serviceType == "keycloak-mgmt" && s.form.keycloak == KeycloakForm("r", "u", "p", "", "") ==>
              CanNext(s) && ConfigurationOf(s.form).guiClientSecret == "axionet-gui-lab-secret"
    ensures s.form.serviceType == "haproxy" && s.form.haproxy == HaproxyForm("http", 80, "", 8080) ==>
              CanNext(s) && ConfigurationOf(s.form).serverAddress == "127.0.0.1"
    ensures s.form.serviceType == "frr" && s.form.frr == FrrForm("", "9.9.9.9", 1, "", 1, "", "")
            && s.form.name != "" ==>
              CanNext(s) && ConfigurationOf(s.form).hostname == s.form.name
  {
    assert JsTrim("r") == "r" && JsTrim("u") == "u" && JsTrim("p") == "p";
    assert JsTrim("9.9.9.9") == "9.9.9.9";
  }

  /** What is sent in the place of blank fields, whether or not the guards let them through. */
  lemma DefaultsExactly(f: Form)
    ensures var c := ConfigurationOf(f);
            && (c.Frr? && f.frr.hostname == "" ==> c.hostname == if f.name == "" then "ax-frr" else f.name)
            && (c.Keycloak? && f.keycloak.realm == "" ==> c.realm == "axionet")
            && (c.Keycloak? && f.keycloak.adminUser == "" ==> c.adminUsername == "admin")
            && (c.Keycloak? && f.keycloak.adminPass == "" ==> c.adminPassword == "admin")
            && (c.Keycloak? && f.keycloak.guiSecret == "" ==> c.guiClientSecret == "axionet-gui-lab-secret")
            && (c.Gateway? && !Filled(f.gateway.upstream) ==> c.upstreamUrl == "http://127.0.0.1:8080")
            && (c.Gateway? && !Filled(f.gateway.issuer) ==> c.oidcIssuerUrl == "")
            && (c.Gateway? && !Filled(f.gateway.clientId) ==> c.clientId == "axionet-app")
            && (c.Gateway? && !Filled(f.gateway.clientSecret) ==> c.clientSecret == "axionet-app-lab-secret")
            && (c.Haproxy? && f.haproxy.serverAddress == "" ==> c.serverAddress == "127.0.0.1")
  {
  }

  /** The networks sent are the lines that are not blank, trimmed, in their order. */
  lemma {:induction false} TrimmedLinesExactly(before: seq<string>, line: string, after: seq<string>)
    ensures TrimmedLines(before + [line] + after) ==
            TrimmedLines(before) + (if JsTrim(line) == "" then [] else [JsTrim(line)]) + TrimmedLines(after)
  {
    if before == [] {
      assert before + [line] + after == [line] + after && ([line] + after)[1..] == after;
    } else {
      assert (before + [line] + after)[1..] == before[1..] + [line] + after;
      TrimmedLinesExactly(before[1..], line, after);
    }
  }

  /** The first address is the first that is not blank, trimmed. */
  lemma {:induction false} FirstIpExactly(attachments: seq<Attachment>, i: nat)
    requires i < |attachments| && JsTrim(attachments[i].ip) != ""
    requires forall j :: 0 <= j < i ==> JsTrim(attachments[j].ip) == ""
    ensures FirstIp(attachments) == JsTrim(attachments[i].ip)
  {
    if i == 0 {
    } else {
      FirstIpExactly(attachments[1..], i - 1);
    }
  }

  /** The service selected is the first of the type in the catalogue. */
  lemma {:induction false} SelectedExactly(catalogue: seq<Service>, serviceType: string, i: nat)
    requires i < |catalogue| && catalogue[i].serviceType == serviceType
    requires forall j :: 0 <= j < i ==> catalogue[j].serviceType != serviceType
    ensures Selected(catalogue, serviceType) == Some(catalogue[i])
  {
    if i == 0 {
    } else {
      SelectedExactly(catalogue[1..], serviceType, i - 1);
    }
  }

  lemma {:induction false} NoneSelected(catalogue: seq<Service>, serviceType: string)
    ensures Selected(catalogue, serviceType).None? <==>
            forall i :: 0 <= i < |catalogue| ==> catalogue[i].serviceType != serviceType
  {
    if catalogue == [] {
    } else {
      NoneSelected(catalogue[1..], serviceType);
      assert forall i :: 0 < i < |catalogue| ==> catalogue[i] == catalogue[1..][i - 1];
    }
  }

  /**
    What is sent: the type, the configuration, and the version in force, which is the one picked or
    typed, else the default of the first service of the type in the catalogue, else the built-in one.
   */
  lemma VersionExactly(catalogue: seq<Service>, f: Form)
    ensures Current(catalogue, f).serviceType == f.serviceType
    ensures Current(catalogue, f).configuration == ConfigurationOf(f)
    ensures f.imageVersion != "" ==> Current(catalogue, f).version == f.imageVersion
    ensures forall i :: 0 <= i < |catalogue| && catalogue[i].serviceType == f.serviceType && f.imageVersion == ""
                          && (forall j :: 0 <= j < i ==> catalogue[j].serviceType != f.serviceType) ==>
              Current(catalogue, f).version ==
              if catalogue[i].defaultVersion != "" then catalogue[i].defaultVersion else "3.2.6"
    ensures f.imageVersion == "" && (forall i :: 0 <= i < |catalogue| ==> catalogue[i].serviceType != f.serviceType) ==>
              Current(catalogue, f).version == "3.2.6"
  {
    forall i | 0 <= i < |catalogue| && catalogue[i].serviceType == f.serviceType
               && (forall j :: 0 <= j < i ==> catalogue[j].serviceType != f.serviceType)
      ensures Selected(catalogue, f.serviceType) == Some(catalogue[i])
    {
      SelectedExactly(catalogue, f.serviceType, i);
    }
    NoneSelected(catalogue, f.serviceType);
  }

  /** The version in force is out of the catalogue's reach exactly when one was picked or typed. */
  lemma VersionPinnedExactly(f: Form)
    ensures (forall c, d :: Version(c, f) == Version(d, f)) <==> f.imageVersion != ""
  {
    var c, d := [Service(f.serviceType, true, "1")], [Service(f.serviceType, true, "2")];
    assert Selected(c, f.serviceType) == Some(c[0]) && Selected(d, f.serviceType) == Some(d[0]);
    if f.imageVersion == "" {
      assert Version(c, f) == "1" && Version(d, f) == "2";
    }
  }

  // -- Complete forms -----------------------------------------------------------------------

  predicate NeedsNetwork(f: Form) {
    f.serviceType == "keycloak-mgmt" || f.serviceType == "keycloak-apps" || f.serviceType == "auth-gateway"
  }

  predicate SettingsComplete(f: Form) {
    && (f.serviceType == "frr" ==> f.frr.localAs > 0 && (Filled(f.frr.routerId) || FirstIp(f.attachments) != ""))
    && (f.serviceType == "keycloak-mgmt" || f.serviceType == "keycloak-apps" ==>
          Filled(f.keycloak.realm) && Filled(f.keycloak.adminUser) && Filled(f.keycloak.adminPass))
    && (f.serviceType == "auth-gateway" ==>
          && Filled(f.gateway.upstream) && Filled(f.gateway.issuer)
          && Filled(f.gateway.clientId) && Filled(f.gateway.clientSecret))
    && (f.serviceType != "frr" && !NeedsNetwork(f) ==> f.haproxy.bindPort > 0 && f.haproxy.serverPort > 0)
  }

  /** What the guards of the steps passed have established. */
  predicate Complete(step: int, f: Form) {
    && (step > 2 ==> Filled(f.name))
    && (step > 3 && NeedsNetwork(f) ==> exists a :: a in f.attachments && a.networkId != "")
    && (step > 4 && NeedsNetwork(f) ==> exists a :: a in f.attachments && a.networkId != "" && Filled(a.ip))
    && (step > 5 ==> SettingsComplete(f))
  }

  /** The guard of a step that adds to a complete form lets through exactly what the next step asks for. */
  lemma GuardExactly(s: State)
    requires 2 <= s.step <= 5 && Complete(s.step, s.form)
    ensures CanNext(s) <==> Complete(s.step + 1, s.form)
  {
    FirstIpFound(s.form.attachments);
  }

  lemma EditKeepsComplete(step: int, f: Form, g: Form)
    requires Editable(step, f, g) && Complete(step, f)
    ensures Complete(step, g)
  {
    if step == 4 && NeedsNetwork(f) {
      var a :| a in f.attachments && a.networkId != "";
      var i :| 0 <= i < |f.attachments| && f.attachments[i] == a;
      assert g.attachments[i] in g.attachments;
    }
  }

  lemma StepKeepsComplete(s: State, a: Action)
    requires Complete(s.step, s.form) && Apply(s, a).Some? && s.step >= 1
    ensures Apply(s, a).value.step >= 1 && Complete(Apply(s, a).value.step, Apply(s, a).value.form)
  {
    match a
    case Edit(g) => EditKeepsComplete(s.step, s.form, g);
    case Next =>
      if 2 <= s.step <= 5 {
        GuardExactly(s);
      }
    case _ =>
  }

  lemma {:induction false} RunKeepsComplete(s: State, actions: seq<Action>)
    requires s.step >= 1 && Complete(s.step, s.form) && Run(s, actions).Some?
    ensures Complete(Run(s, actions).value.step, Run(s, actions).value.form)
    decreases |actions|
  {
    if actions == [] {
    } else {
      StepKeepsComplete(s, actions[0]);
      RunKeepsComplete(Apply(s, actions[0]).value, actions[1..]);
    }
  }

  /** In every run, timely or not, the form at step 7 is complete: whatever is created meets every guard. */
  lemma CreatedFormIsComplete(catalogue: seq<Service>, form: Form, actions: seq<Action>)
    requires Run(Start(catalogue, form), actions).Some?
    ensures var s := Run(Start(catalogue, form), actions).value;
            s.step == STEPS ==> Complete(STEPS, s.form)
  {
    RunKeepsComplete(Start(catalogue, form), actions);
  }

  /** What can be typed: name and version at step 2, any attachments at step 3, the settings of the type at step 5. */
  lemma EditsOffered(s: State, g: Form)
    ensures s.step == 2 ==> Apply(s, Edit(s.form.(name := g.name, imageVersion := g.imageVersion))).Some?
    ensures s.step == 3 ==> Apply(s, Edit(s.form.(attachments := g.attachments))).Some?
    ensures s.step == 5 ==>
              var f := s.form;
              && (f.serviceType == "frr" ==> Apply(s, Edit(f.(frr := g.frr))).Some?)
              && (f.serviceType == "keycloak-mgmt" || f.serviceType == "keycloak-apps" ==>
                    Apply(s, Edit(f.(keycloak := g.keycloak))).Some?)
              && (f.serviceType == "auth-gateway" ==> Apply(s, Edit(f.(gateway := g.gateway))).Some?)
              && (f.serviceType == "haproxy" ==> Apply(s, Edit(f.(haproxy := g.haproxy))).Some?)
    ensures s.step == 1 || s.step >= 6 ==> Apply(s, Edit(g)).None?
  {
  }

  /** At step 4 an address can be typed for each attachment that names a network, and nothing else. */
  lemma AddressesOffered(s: State, i: nat, ip: string)
    requires s.step == 4 && i < |s.form.attachments|
    ensures var a := s.form.attachments[i];
            var g := s.form.(attachments := s.form.attachments[i := a.(ip := ip)]);
            a.networkId != "" || ip == a.ip ==> Apply(s, Edit(g)).Some?
  {
  }

  /** The first step is left exactly when the first service of the type in the catalogue is enabled. */
  lemma ServiceChosenExactly(s: State, i: nat)
    requires s.step == 1 && i < |s.catalogue| && s.catalogue[i].serviceType == s.form.serviceType
    requires forall j :: 0 <= j < i ==> s.catalogue[j].serviceType != s.form.serviceType
    ensures Apply(s, Next).Some? <==> s.catalogue[i].enabled
  {
    SelectedExactly(s.catalogue, s.form.serviceType, i);
  }

  /** Picking a service puts its type and version in force, and leaves the rest of the form alone. */
  lemma PickExactly(s: State, service: Service)
    requires s.step == 1 && service in s.catalogue && service.enabled && service.defaultVersion != ""
    ensures var r := Apply(s, Pick(service));
            && r.Some? && r.value.Now().serviceType == service.serviceType
            && r.value.Now().version == service.defaultVersion && r.value.validation == None
            && r.value.(form := s.form, validation := s.validation) == s
            && r.value.form.(serviceType := s.form.serviceType, imageVersion := s.form.imageVersion) == s.form
    ensures forall x, t :: Apply(t, Pick(x)).Some? <==> t.step == 1 && x in t.catalogue && x.enabled
  {
  }

  // -- Safety -------------------------------------------------------------------------------

  /** From step 6 on, a validation held is one of what would be sent now; at step 7 there is one, and it is ok. */
  predicate Sound(s: State) {
    && 1 <= s.step <= STEPS
    && (s.step >= 6 && s.validation.Some? ==> s.validation.value.request == s.Now())
    && (s.step == STEPS ==> s.validation.Some? && s.validation.value.ok)
  }

  /** A request under way is one of what would be sent now. */
  predicate PendingCurrent(s: State) {
    s.pending.Some? ==> s.step == 6 && s.pending.value == s.Now()
  }

  /** A reply that would be taken for a validation of something else, or that withdraws the one creation rests on. */
  predicate Misleading(s: State, a: Action) {
    && a.Reply? && s.pending.Some? && s.step >= 6
    && (s.pending.value != s.Now() || (s.step == STEPS && !a.ok))
  }

  /**
    One step keeps the wizard sound exactly when it is no misleading reply and does not change the
    version under a validation held.
   */
  lemma StepSoundExactly(s: State, a: Action)
    requires Sound(s) && Apply(s, a).Some?
    ensures Sound(Apply(s, a).value) <==> !Misleading(s, a) && !(Unsettles(s, a) && s.validation.Some?)
  {
  }

  lemma StepKeepsPending(s: State, a: Action)
    requires PendingCurrent(s) && Apply(s, a).Some?
    requires ((a.Back? || a.Next?) ==> s.pending.None?) && !Unsettles(s, a)
    ensures PendingCurrent(Apply(s, a).value)
  {
  }

  lemma {:induction false} TimelyRunSound(s: State, actions: seq<Action>)
    requires Sound(s) && PendingCurrent(s) && Timely(s, actions) && Run(s, actions).Some?
    ensures Sound(Run(s, actions).value) && PendingCurrent(Run(s, actions).value)
    decreases |actions|
  {
    if actions == [] {
    } else {
      StepSoundExactly(s, actions[0]);
      StepKeepsPending(s, actions[0]);
      TimelyRunSound(Apply(s, actions[0]).value, actions[1..]);
    }
  }

  /**
    In every run in which validation replies arrive before the user leaves step 6, and the catalogue
    does not change the version from there on, whenever the wizard is at step 7 creation is offered,
    and what would be created is exactly what was validated.
   */
  lemma WizardSafety(catalogue: seq<Service>, form: Form, actions: seq<Action>)
    requires Run(Start(catalogue, form), actions).Some? && Timely(Start(catalogue, form), actions)
    ensures var s := Run(Start(catalogue, form), actions).value;
            s.step == STEPS ==> CreateOffered(s) && s.validation.value.request == s.Now()
  {
    TimelyRunSound(Start(catalogue, form), actions);
  }

  lemma RunOne(s: State, s': State, a: Action, rest: seq<Action>)
    requires Apply(s, a) == Some(s')
    ensures Run(s, [a] + rest) == Run(s', rest)
  {
    assert ([a] + rest)[1..] == rest;
  }

  /**
    Going forward and back again changes nothing, but leaving step 5 or coming back from step 7 drops
    the validation.
   */
  lemma NextThenBack(s: State)
    requires 1 <= s.step < STEPS && CanNext(s)
    ensures Run(s, [Next, Back]) == Some(s.(validation := if s.step == 5 || s.step == 6 then None else s.validation))
  {
    var forward := Apply(s, Next).value;
    RunOne(s, forward, Next, [Back]);
    RunOne(forward, Apply(forward, Back).value, Back, []);
  }

  /** A validation whose reply is lost can be sent again. */
  lemma ValidateThenLost(s: State)
    requires s.step == 6 && s.pending.None?
    ensures var r := Run(s, [Validate, ReplyLost]);
            r.Some? && r.value == s
  {
    var sent := s.(pending := Some(s.Now()));
    RunOne(s, sent, Validate, [ReplyLost]);
    RunOne(sent, sent.(pending := None), ReplyLost, []);
  }

  /** A validation that is answered is held with what was sent. */
  lemma ValidateThenReply(s: State, ok: bool)
    requires s.step == 6 && s.pending.None?
    ensures Run(s, [Validate, Reply(ok)]) == Some(s.(validation := Some(Validation(ok, s.Now()))))
  {
    var sent := s.(pending := Some(s.Now()));
    RunOne(s, sent, Validate, [Reply(ok)]);
    RunOne(sent, s.(validation := Some(Validation(ok, s.Now()))), Reply(ok), []);
  }

  lemma LeaveWhilePending(s: State, changed: Form)
    requires s.step == 6 && s.pending.None? && Editable(5, s.form, changed)
    ensures Run(s, [Validate, Back, Edit(changed)]) == Some(s.(step := 5, form := changed, pending := Some(s.Now())))
  {
    var s1 := s.(pending := Some(s.Now()));
    var s2 := s1.(step := 5);
    RunOne(s, s1, Validate, [Back, Edit(changed)]);
    RunOne(s1, s2, Back, [Edit(changed)]);
    RunOne(s2, s2.(form := changed), Edit(changed), []);
  }

  lemma ReturnForReply(s: State, request: Request)
    requires s.step == 5 && s.pending == Some(request) && CanNext(s)
    ensures Run(s, [Next, Reply(true), Next]) ==
            Some(s.(step := 7, validation := Some(Validation(true, request)), pending := None))
  {
    var s1 := s.(step := 6, validation := None);
    var s2 := s1.(validation := Some(Validation(true, request)), pending := None);
    RunOne(s, s1, Next, [Reply(true), Next]);
    RunOne(s1, s2, Reply(true), [Next]);
    RunOne(s2, s2.(step := 7), Next, []);
  }

  lemma {:induction false} RunAppend(s: State, a: seq<Action>, b: seq<Action>)
    requires Run(s, a).Some?
    ensures Run(s, a + b) == Run(Run(s, a).value, b)
    decreases |a|
  {
    if a == [] {
      assert a + b == b;
    } else {
      assert (a + b)[1..] == a[1..] + b;
      RunAppend(Apply(s, a[0]).value, a[1..], b);
    }
  }

  /**
    Without that, safety fails: from any state at step 6, sending a validation, going back, changing
    the configuration, and coming forward again before the reply ends at step 7 with creation
    offered on a validation of the old configuration.
   */
  lemma LateReplyIsStale(s: State, changed: Form)
    requires s.step == 6 && s.pending.None?
    requires Editable(5, s.form, changed) && ConfigurationOf(changed) != ConfigurationOf(s.form)
    requires CanNext(s.(step := 5, form := changed, pending := Some(s.Now())))
    ensures var r := Run(s, [Validate, Back, Edit(changed)] + [Next, Reply(true), Next]);
            r.Some? && CreateOffered(r.value) && r.value.validation.value.request != r.value.Now()
  {
    LeaveWhilePending(s, changed);
    ReturnForReply(s.(step := 5, form := changed, pending := Some(s.Now())), s.Now());
    RunAppend(s, [Validate, Back, Edit(changed)], [Next, Reply(true), Next]);
  }

  // -- The page -----------------------------------------------------------------------------

  /** The component's state; each handler can be reached only while its control is shown and enabled. */
  class WizardPage {
    var catalogue: seq<Service>
    var step: int
    var form: Form
    var validation: Option<Validation>
    var pending: Option<Request>

    function Shown(): State
      reads this
    {
      State(catalogue, step, form, validation, pending)
    }

    constructor (catalogue: seq<Service>, form: Form)
      ensures Shown() == Start(catalogue, form)
    {
      this.catalogue := catalogue;
      this.form := form;
      step := 1;
      validation := None;
      pending := None;
    }

    method OnPick(service: Service)
      requires step == 1 && service in catalogue && service.enabled
      modifies this
      ensures Some(Shown()) == Apply(old(Shown()), Pick(service))
    {
      form := form.(serviceType := service.serviceType);
      form := form.(imageVersion := service.defaultVersion);
      validation := None;
    }

    method OnEdit(edited: Form)
      requires Editable(step, form, edited)
      modifies this
      ensures Some(Shown()) == Apply(old(Shown()), Edit(edited))
    {
      form := edited;
    }

    method OnBack()
      requires step > 1
      modifies this
      ensures Some(Shown()) == Apply(old(Shown()), Back)
    {
      var before := step;
      step := step - 1;
      if before == STEPS {
        validation := None;
      }
    }

    method OnNext()
      requires step < STEPS && CanNext(Shown())
      modifies this
      ensures Some(Shown()) == Apply(old(Shown()), Next)
    {
      if step == 5 {
        validation := None;
      }
      step := step + 1;
    }

    method SendValidation()
      requires step == 6 && pending.None?
      modifies this
      ensures Some(Shown()) == Apply(old(Shown()), Validate)
    {
      pending := Some(Request(form.serviceType, Version(catalogue, form), ConfigurationOf(form)));
    }

    method OnValidated(ok: bool)
      requires pending.Some?
      modifies this
      ensures Some(Shown()) == Apply(old(Shown()), Reply(ok))
    {
      validation := Some(Validation(ok, pending.value));
      pending := None;
    }

    /** `onCreate` sends the form as it is now: in a sound state, what was validated. */
    method OnCreate() returns (sent: Request)
      requires CreateOffered(Shown())
      ensures sent == Shown().Now()
      ensures Sound(Shown()) ==> sent == validation.value.request
    {
      sent := Request(form.serviceType, Version(catalogue, form), ConfigurationOf(form));
    }
  }
}
