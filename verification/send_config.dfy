/** The "Send config" dialog (sendconfig.py, and the backlog line written in
    tasmotizer.py). A fixed table lists, per section, the Tasmota commands
    the user can set: the command name, its description, the widget that
    edits it, whether it is required, and its default. Collecting a section
    turns each field into `"<name> <value>"`, leaving out values equal to
    their default (labels excepted) and stopping at the first required field
    left empty. Accepting the dialog collects the checked sections in list
    order, appends `restart 1`, and the caller sends everything as one
    `backlog` line.

    Widget contents come in as inputs; the settings file and the system
    keyring that the source reads and writes are not modelled. */
module SendConfig {
  import opened Strings

  /** The widget classes used by the table. */
  datatype Widget = LineEdit | Password | Label | SpinBox | CheckBox | Modules | Template

  /** The Python values a field can hold: a `str`, an `int`, or `None`. */
  datatype Value = Text(text: string) | Number(number: int) | NoValue

  /** One entry of a section: `default` is `NoValue` where the table gives none. */
  datatype Field = Field(name: string, desc: string, widget: Widget, required: bool, default: Value)

  datatype Section = Section(title: string, fields: seq<Field>)

  /** The `configs` table, one constant per section, in declaration order. */
  const HostnameSection := Section("Hostname", [
    Field("hostname", "Hostname", LineEdit, true, NoValue)])

  const WifiSection := Section("WiFi", [
    Field("ssid1", "AP1", LineEdit, true, NoValue),
    Field("password1", "Password1", Password, true, NoValue)])

  const RecoveryWifiSection := Section("Recovery WiFi", [
    Field("ssid2", "AP2", Label, false, Text("Recovery")),
    Field("password2", "Password2", Label, false, Text("a1b2c3d4"))])

  const StaticIpSection := Section("Static IP", [
    Field("ipaddress1", "IP", LineEdit, true, NoValue),
    Field("ipaddress2", "Gateway", LineEdit, true, NoValue),
    Field("ipaddress3", "Subnet", LineEdit, true, Text("255.255.255.0")),
    Field("ipaddress4", "DNS Server", LineEdit, false, NoValue)])

  const MqttSection := Section("MQTT", [
    Field("mqtthost", "Broker", LineEdit, true, NoValue),
    Field("mqttport", "Port", SpinBox, false, Number(1883)),
    Field("topic", "Topic", LineEdit, true, Text("tasmota_%06X")),
    Field("fulltopic", "Fulltopic", LineEdit, true, Text("%prefix%/%topic%/"))])

  const MqttAuthSection := Section("MQTT Auth", [
    Field("mqttuser", "User", LineEdit, true, NoValue),
    Field("mqttpassword", "Password", Password, true, NoValue)])

  const ModuleSection := Section("Module", [
    Field("module", "Module", Modules, false, NoValue)])

  const TemplateSection := Section("Template", [
    Field("template", "Template", Template, true, NoValue)])

  const CorsSection := Section("CORS", [
    Field("cors", "CORS domain", LineEdit, true, Text("*"))])

  const SetOptionsSection := Section("SetOptions", [
    Field("setoption19", "Enable HomeAssistant auto-discovery (SetOption19)", CheckBox, false, NoValue),
    Field("setoption52", "Display optional time offset from UTC in JSON payloads (SetOption52)", CheckBox, false, NoValue),
    Field("setoption65", "Tasmota won't erase the settings after 4 quick power cycles (SetOption65)", CheckBox, false, NoValue)])

  const Configs: seq<Section> := [
    HostnameSection, WifiSection, RecoveryWifiSection, StaticIpSection, MqttSection,
    MqttAuthSection, ModuleSection, TemplateSection, CorsSection, SetOptionsSection]

  /** The widget kinds are used consistently across the table: a check box
      never has a default (so `CheckBoxCommand` applies to each one) and a
      label is optional with a text default (so, as in
      `RecoveryLabelsAlwaysSent`, it is never reported missing). */
  lemma ConfigsTable()
    ensures forall s, j :: 0 <= s < |Configs| && 0 <= j < |Configs[s].fields| && Configs[s].fields[j].widget == CheckBox ==>
      Configs[s].fields[j].default == NoValue
    ensures forall s, j :: 0 <= s < |Configs| && 0 <= j < |Configs[s].fields| && Configs[s].fields[j].widget == Label ==>
      !Configs[s].fields[j].required && Configs[s].fields[j].default.Text?
  {
  }

  /** What the collector can read from a widget: `text()` (or `currentText()`),
      `value()`, `isChecked()` and `currentData()`. */
  datatype WidgetState = WidgetState(text: string, number: int, checked: bool, data: Value)

  /** The value `collect_and_save` reads, chosen by widget class. */
  function Collect(w: Widget, st: WidgetState): (v: Value)
    ensures w == CheckBox ==> v == Number(if st.checked then 1 else 0)
    ensures w == SpinBox ==> v == Number(st.number)
    ensures w == Modules ==> v == st.data
    ensures w == Template ==> v.Text? && v.text <= st.text && (|v.text| == 0 || v.text[|v.text| - 1] != '\n')
    ensures w == Template ==> forall i :: |v.text| <= i < |st.text| ==> st.text[i] == '\n'
    ensures w in {LineEdit, Password, Label} ==> v == Text(st.text)
  {
    match w
    case SpinBox => Number(st.number)
    case Modules => st.data
    case CheckBox => Number(if st.checked then 1 else 0)
    case Template => Text(RStrip(st.text, {'\n'}))
    case _ => Text(st.text)
  }

  /** Python truthiness of the value. */
  predicate Truthy(v: Value) {
    match v
    case Text(s) => |s| > 0
    case Number(n) => n != 0
    case NoValue => false
  }

  /** `f"{value}"`. */
  function Format(v: Value): string {
    match v
    case Text(s) => s
    case Number(n) => IntToString(n)
    case NoValue => "None"
  }

  function ValueAt(fields: seq<Field>, states: seq<WidgetState>, j: nat): Value
    requires |states| == |fields| && j < |fields|
  {
    Collect(fields[j].widget, states[j])
  }

  /** Field `j` is required and its value is falsy. */
  predicate MissingAt(fields: seq<Field>, states: seq<WidgetState>, j: nat)
    requires |states| == |fields| && j < |fields|
  {
    fields[j].required && !Truthy(ValueAt(fields, states, j))
  }

  /** Field `j` yields a command: its value differs from the default, or it is a label. */
  predicate EmitsAt(fields: seq<Field>, states: seq<WidgetState>, j: nat)
    requires |states| == |fields| && j < |fields|
  {
    ValueAt(fields, states, j) != fields[j].default || fields[j].widget == Label
  }

  /** `f'{command} {value}'`. */
  function Command(name: string, value: string): string {
    name + " " + value
  }

  function CommandAt(fields: seq<Field>, states: seq<WidgetState>, j: nat): string
    requires |states| == |fields| && j < |fields|
  {
    Command(fields[j].name, Format(ValueAt(fields, states, j)))
  }

  /** How a check box value is written: `1` or `0`. */
  function Bit(b: bool): string {
    if b then "1" else "0"
  }

  /** `MissingDetailException(title, text)`. */
  datatype MissingDetail = MissingDetail(title: string, text: string)

  function Detail(section: string, desc: string): MissingDetail {
    MissingDetail(section + " setting missing", desc + " is required.")
  }

  datatype Result<+T> = Ok(value: T) | Missing(detail: MissingDetail)

  /** The commands of fields `k..` of a section, or the first missing detail. */
  function CollectFrom(section: string, fields: seq<Field>, states: seq<WidgetState>, k: nat): (r: Result<seq<string>>)
    requires |states| == |fields| && k <= |fields|
    ensures r.Ok? ==> |r.value| <= |fields| - k
    decreases |fields| - k
  {
    if k == |fields| then Ok([])
    else if MissingAt(fields, states, k) then Missing(Detail(section, fields[k].desc))
    else
      match CollectFrom(section, fields, states, k + 1)
      case Missing(e) => Missing(e)
      case Ok(rest) =>
        Ok((if EmitsAt(fields, states, k) then [CommandAt(fields, states, k)] else []) + rest)
  }

  /** The first missing field among `k..`, if any. */
  predicate FirstMissing(fields: seq<Field>, states: seq<WidgetState>, k: nat, j: nat)
    requires |states| == |fields| && k <= |fields|
  {
    && k <= j < |fields|
    && MissingAt(fields, states, j)
    && (forall i :: k <= i < j ==> !MissingAt(fields, states, i))
  }

  /** Collecting fields `k..` fails exactly when one of them is missing, and
      then with the detail of the first. */
  lemma {:induction false} CollectFromFails(section: string, fields: seq<Field>, states: seq<WidgetState>, k: nat)
    requires |states| == |fields| && k <= |fields|
    ensures CollectFrom(section, fields, states, k).Ok? <==> forall j :: k <= j < |fields| ==> !MissingAt(fields, states, j)
    ensures CollectFrom(section, fields, states, k).Missing? ==>
      exists j: nat :: FirstMissing(fields, states, k, j) && CollectFrom(section, fields, states, k).detail == Detail(section, fields[j].desc)
    decreases |fields| - k
  {
    var r := CollectFrom(section, fields, states, k);
    if k < |fields| {
      if MissingAt(fields, states, k) {
        assert FirstMissing(fields, states, k, k) && r.detail == Detail(section, fields[k].desc);
      } else {
        CollectFromFails(section, fields, states, k + 1);
        if r.Missing? {
          var j: nat :| FirstMissing(fields, states, k + 1, j) && r.detail == Detail(section, fields[j].desc);
          assert FirstMissing(fields, states, k, j);
        }
      }
    }
  }

  /** When collecting fields `k..` succeeds, it yields the command of every
      field that emits one, and nothing else. */
  lemma {:induction false} CollectFromCommands(section: string, fields: seq<Field>, states: seq<WidgetState>, k: nat)
    requires |states| == |fields| && k <= |fields|
    requires CollectFrom(section, fields, states, k).Ok?
    ensures forall c :: c in CollectFrom(section, fields, states, k).value ==>
      exists j :: k <= j < |fields| && EmitsAt(fields, states, j) && c == CommandAt(fields, states, j)
    ensures forall j :: k <= j < |fields| && EmitsAt(fields, states, j) ==>
      CommandAt(fields, states, j) in CollectFrom(section, fields, states, k).value
    decreases |fields| - k
  {
    if k < |fields| {
      CollectFromCommands(section, fields, states, k + 1);
    }
  }

  /** `ConfigWidget.collect_and_save` for one section. */
  function CollectAndSave(sec: Section, states: seq<WidgetState>): Result<seq<string>>
    requires |states| == |sec.fields|
  {
    CollectFrom(sec.title, sec.fields, states, 0)
  }

  /** `a` is `b` with some elements left out. */
  predicate IsSubsequence(a: seq<string>, b: seq<string>) {
    |a| == 0 || (|b| > 0 && ((a[0] == b[0] && IsSubsequence(a[1..], b[1..])) || IsSubsequence(a, b[1..])))
  }

  /** Every field's command, emitted or not, in declaration order. */
  function AllCommandsFrom(fields: seq<Field>, states: seq<WidgetState>, k: nat): (all: seq<string>)
    requires |states| == |fields| && k <= |fields|
    ensures |all| == |fields| - k
    decreases |fields| - k
  {
    if k == |fields| then [] else [CommandAt(fields, states, k)] + AllCommandsFrom(fields, states, k + 1)
  }

  /** At most one command per field, in declaration order. */
  lemma {:induction false} CommandsInFieldOrder(section: string, fields: seq<Field>, states: seq<WidgetState>, k: nat)
    requires |states| == |fields| && k <= |fields|
    requires CollectFrom(section, fields, states, k).Ok?
    ensures IsSubsequence(CollectFrom(section, fields, states, k).value, AllCommandsFrom(fields, states, k))
    decreases |fields| - k
  {
    if k < |fields| {
      CommandsInFieldOrder(section, fields, states, k + 1);
      var rest := CollectFrom(section, fields, states, k + 1).value;
      var all := AllCommandsFrom(fields, states, k);
      assert all[1..] == AllCommandsFrom(fields, states, k + 1);
      if EmitsAt(fields, states, k) {
        assert CollectFrom(section, fields, states, k).value == [CommandAt(fields, states, k)] + rest;
        assert ([CommandAt(fields, states, k)] + rest)[1..] == rest;
      } else {
        assert CollectFrom(section, fields, states, k).value == rest;
      }
    }
  }

  /** One field's step of the collection, when it is not missing. */
  lemma CollectStep(section: string, fields: seq<Field>, states: seq<WidgetState>, k: nat, rest: seq<string>)
    requires |states| == |fields| && k < |fields|
    requires !MissingAt(fields, states, k) && CollectFrom(section, fields, states, k + 1) == Ok(rest)
    ensures EmitsAt(fields, states, k) ==> CollectFrom(section, fields, states, k) == Ok([CommandAt(fields, states, k)] + rest)
    ensures !EmitsAt(fields, states, k) ==> CollectFrom(section, fields, states, k) == Ok(rest)
  {
    assert [] + rest == rest;
  }

  /** A missing field ends the collection with its detail. */
  lemma MissingStep(section: string, fields: seq<Field>, states: seq<WidgetState>, k: nat)
    requires |states| == |fields| && k < |fields| && MissingAt(fields, states, k)
    ensures CollectFrom(section, fields, states, k) == Missing(Detail(section, fields[k].desc))
  {
  }

  /** The two Recovery WiFi labels are always sent, whatever they show and
      even when it is their default. */
  lemma RecoveryLabelsAlwaysSent(states: seq<WidgetState>)
    requires |states| == 2
    ensures CollectAndSave(RecoveryWifiSection, states) == Ok(["ssid2 " + states[0].text, "password2 " + states[1].text])
  {
    var title := RecoveryWifiSection.title;
    var fields := RecoveryWifiSection.fields;
    var c0, c1 := CommandAt(fields, states, 0), CommandAt(fields, states, 1);
    assert c0 == "ssid2 " + states[0].text && c1 == "password2 " + states[1].text;
    assert EmitsAt(fields, states, 0) && EmitsAt(fields, states, 1);
    CollectStep(title, fields, states, 1, []);
    assert [c1] + [] == [c1];
    CollectStep(title, fields, states, 0, [c1]);
    assert [c0] + [c1] == [c0, c1];
  }

  /** A check box without a default always yields `<name> 1` or `<name> 0`. */
  lemma CheckBoxCommand(fields: seq<Field>, states: seq<WidgetState>, j: nat)
    requires |states| == |fields| && j < |fields|
    requires fields[j].widget == CheckBox && fields[j].default == NoValue
    ensures EmitsAt(fields, states, j)
    ensures CommandAt(fields, states, j) == Command(fields[j].name, Bit(states[j].checked))
  {
    assert NatToString(1) == "1" && NatToString(0) == "0";
  }

  /** Check boxes have no default, so each is always sent, as 1 or 0. */
  lemma CheckBoxesAlwaysSent(states: seq<WidgetState>)
    requires |states| == 3
    ensures CollectAndSave(SetOptionsSection, states) == Ok([
      Command("setoption19", Bit(states[0].checked)),
      Command("setoption52", Bit(states[1].checked)),
      Command("setoption65", Bit(states[2].checked))])
  {
    var title := SetOptionsSection.title;
    var fields := SetOptionsSection.fields;
    CheckBoxCommand(fields, states, 0);
    CheckBoxCommand(fields, states, 1);
    CheckBoxCommand(fields, states, 2);
    var c0, c1, c2 := CommandAt(fields, states, 0), CommandAt(fields, states, 1), CommandAt(fields, states, 2);
    CollectStep(title, fields, states, 2, []);
    assert [c2] + [] == [c2];
    CollectStep(title, fields, states, 1, [c2]);
    assert [c1] + [c2] == [c1, c2];
    CollectStep(title, fields, states, 0, [c1, c2]);
    assert [c0] + [c1, c2] == [c0, c1, c2];
  }

  /** An empty host name is reported with the section title and field description. */
  lemma HostnameRequired(st: WidgetState)
    requires st.text == ""
    ensures CollectAndSave(HostnameSection, [st]) == Missing(Detail("Hostname", "Hostname"))
  {
    assert MissingAt(HostnameSection.fields, [st], 0);
  }

  /** Of the MQTT commands, only the port's starts with `mqttp`. */
  lemma MqttCommandHeads(states: seq<WidgetState>, j: nat)
    requires |states| == 4 && j < 4 && j != 1
    ensures CommandAt(MqttSection.fields, states, j) != Command("mqttport", "1883")
  {
    var fields := MqttSection.fields;
    var c := CommandAt(fields, states, j);
    if j == 0 {
      assert c == Command("mqtthost", Format(ValueAt(fields, states, j)));
      assert c[4] == 'h';
    } else if j == 2 {
      assert c == Command("topic", Format(ValueAt(fields, states, j)));
      assert c[0] == 't';
    } else {
      assert c == Command("fulltopic", Format(ValueAt(fields, states, j)));
      assert c[0] == 'f';
    }
  }

  /** A port left at its default of 1883 is not sent. */
  lemma DefaultPortOmitted(states: seq<WidgetState>)
    requires |states| == 4 && states[1].number == 1883
    requires CollectAndSave(MqttSection, states).Ok?
    ensures Command("mqttport", "1883") !in CollectAndSave(MqttSection, states).value
  {
    var fields := MqttSection.fields;
    assert !EmitsAt(fields, states, 1);
    if Command("mqttport", "1883") in CollectAndSave(MqttSection, states).value {
      var j :| 0 <= j < 4 && EmitsAt(fields, states, j) && Command("mqttport", "1883") == CommandAt(fields, states, j);
      MqttCommandHeads(states, j);
      assert false;
    }
  }

  /** Qt's three check states of a list row. */
  datatype CheckState = Unchecked | PartiallyChecked | Checked

  /** `toggle_item_check`: unchecked becomes checked, anything else unchecked. */
  function Toggle(s: CheckState): (t: CheckState)
    ensures s == Unchecked <==> t == Checked
    ensures t != PartiallyChecked
  {
    if s == Unchecked then Checked else Unchecked
  }

  /** Toggling twice restores a two-state row; a partially checked row ends up checked. */
  lemma ToggleTwice(s: CheckState)
    ensures s != PartiallyChecked ==> Toggle(Toggle(s)) == s
    ensures s == PartiallyChecked ==> Toggle(Toggle(s)) == Checked
  {
  }

  /** Double-clicking row `row` toggles that row only. */
  function ToggleRow(checks: seq<CheckState>, row: nat): (r: seq<CheckState>)
    requires row < |checks|
    ensures |r| == |checks| && r[row] == Toggle(checks[row])
    ensures forall k :: 0 <= k < |checks| && k != row ==> r[k] == checks[k]
  {
    checks[row := Toggle(checks[row])]
  }

  /** One row of the dialog: a section, its check state and its widgets. */
  datatype Row = Row(section: Section, check: CheckState, widgets: seq<WidgetState>)

  predicate WellFormed(rows: seq<Row>) {
    forall k :: 0 <= k < |rows| ==> |rows[k].widgets| == |rows[k].section.fields|
  }

  /** The commands of the checked rows, in row order, up to the first missing
      detail, and that detail if there is one. */
  function Gathered(rows: seq<Row>): (seq<string>, Option<MissingDetail>)
    requires WellFormed(rows)
    decreases |rows|
  {
    if |rows| == 0 then ([], None)
    else if rows[0].check != Checked then Gathered(rows[1..])
    else match CollectAndSave(rows[0].section, rows[0].widgets)
      case Missing(e) => ([], Some(e))
      case Ok(cs) =>
        var (more, err) := Gathered(rows[1..]);
        (cs + more, err)
  }

  /** The loop of `accept`, extending the dialog's command list in place. */
  function ExtendCommands(commands: seq<string>, rows: seq<Row>): (seq<string>, Option<MissingDetail>)
    requires WellFormed(rows)
    decreases |rows|
  {
    if |rows| == 0 then (commands, None)
    else if rows[0].check != Checked then ExtendCommands(commands, rows[1..])
    else match CollectAndSave(rows[0].section, rows[0].widgets)
      case Missing(e) => (commands, Some(e))
      case Ok(cs) => ExtendCommands(commands + cs, rows[1..])
  }

  lemma {:induction false} ExtendIsAppendGathered(commands: seq<string>, rows: seq<Row>)
    requires WellFormed(rows)
    decreases |rows|
    ensures ExtendCommands(commands, rows) == (commands + Gathered(rows).0, Gathered(rows).1)
  {
    if |rows| == 0 {
      assert commands + [] == commands;
    } else if rows[0].check != Checked {
      ExtendIsAppendGathered(commands, rows[1..]);
    } else {
      match CollectAndSave(rows[0].section, rows[0].widgets)
      case Missing(e) =>
        assert commands + [] == commands;
      case Ok(cs) =>
        ExtendIsAppendGathered(commands + cs, rows[1..]);
        assert commands + cs + Gathered(rows[1..]).0 == commands + (cs + Gathered(rows[1..]).0);
    }
  }

  /** How `accept` ends: the dialog is accepted, the "Nothing to send"
      warning is shown, or the missing detail is shown. */
  datatype AcceptOutcome = Accepted | NothingToSend | ShowMissing(detail: MissingDetail)

  /** `SendConfigDialog.accept` as written: `commands` is the dialog's list,
      which is created once with the dialog and never cleared. */
  function AcceptAsWritten(commands: seq<string>, rows: seq<Row>): (r: (seq<string>, AcceptOutcome))
    requires WellFormed(rows)
    ensures commands <= r.0
    ensures Gathered(rows).1.Some? ==> r == (commands + Gathered(rows).0, ShowMissing(Gathered(rows).1.value))
    ensures Gathered(rows).1.None? && |commands + Gathered(rows).0| > 0 ==>
      r == (commands + Gathered(rows).0 + ["restart 1"], Accepted)
    ensures Gathered(rows).1.None? && |commands + Gathered(rows).0| == 0 ==> r == ([], NothingToSend)
  {
    ExtendIsAppendGathered(commands, rows);
    var extended := ExtendCommands(commands, rows);
    if extended.1.Some? then (extended.0, ShowMissing(extended.1.value))
    else if |extended.0| > 0 then (extended.0 + ["restart 1"], Accepted)
    else ([], NothingToSend)
  }

  /** When accepted, `restart 1` is the last command, and what comes before it
      is exactly the earlier commands followed by the gathered ones. */
  lemma AcceptedEndsWithRestart(commands: seq<string>, rows: seq<Row>)
    requires WellFormed(rows)
    requires AcceptAsWritten(commands, rows).1 == Accepted
    ensures var cs := AcceptAsWritten(commands, rows).0;
      |cs| >= 2 && cs[|cs| - 1] == "restart 1"
    ensures AcceptAsWritten(commands, rows).0[..|AcceptAsWritten(commands, rows).0| - 1] == commands + Gathered(rows).0
  {
  }

  /** Rows that are not checked contribute nothing: removing one changes nothing. */
  lemma {:induction false} UncheckedRowIgnored(rows: seq<Row>, k: nat)
    requires WellFormed(rows) && k < |rows| && rows[k].check != Checked
    ensures WellFormed(rows[..k] + rows[k + 1..])
    ensures Gathered(rows) == Gathered(rows[..k] + rows[k + 1..])
  {
    var rest := rows[..k] + rows[k + 1..];
    if k > 0 {
      assert rest[1..] == rows[1..][..k - 1] + rows[1..][k..];
      UncheckedRowIgnored(rows[1..], k - 1);
      assert rest[0] == rows[0];
    } else {
      assert rest == rows[1..];
    }
  }

  /** With nothing checked, the dialog warns and sends nothing (for a fresh dialog). */
  lemma NothingCheckedNothingSent(rows: seq<Row>)
    requires WellFormed(rows)
    requires forall k :: 0 <= k < |rows| ==> rows[k].check != Checked
    ensures Gathered(rows) == ([], None)
    ensures AcceptAsWritten([], rows) == ([], NothingToSend)
  {
    if |rows| > 0 {
      NothingCheckedNothingSent(rows[1..]);
    }
  }

  /** First press: the host name is collected, then WiFi is found missing. */
  lemma FirstAccept(host: WidgetState, ssid: WidgetState, pass: WidgetState)
    requires host.text != "" && ssid.text == ""
    ensures AcceptAsWritten([], [Row(HostnameSection, Checked, [host]), Row(WifiSection, Checked, [ssid, pass])])
      == ([Command("hostname", host.text)], ShowMissing(Detail("WiFi", "AP1")))
  {
    var hostRow := Row(HostnameSection, Checked, [host]);
    var wifiRow := Row(WifiSection, Checked, [ssid, pass]);
    var h := Command("hostname", host.text);
    HostCollected(host);
    WifiMissing(ssid, pass);
    assert [wifiRow][1..] == [];
    assert Gathered([wifiRow]) == ([], Some(Detail("WiFi", "AP1")));
    assert [hostRow, wifiRow][1..] == [wifiRow];
    assert [h] + [] == [h];
    assert Gathered([hostRow, wifiRow]) == ([h], Some(Detail("WiFi", "AP1")));
    assert [] + [h] == [h];
  }

  /** Second press, with the host name unchecked and WiFi filled in, on a list
      that already holds `previous`. */
  lemma SecondAccept(previous: seq<string>, host: WidgetState, ssid: WidgetState, pass: WidgetState)
    requires ssid.text != "" && pass.text != ""
    ensures AcceptAsWritten(previous, [Row(HostnameSection, Unchecked, [host]), Row(WifiSection, Checked, [ssid, pass])])
      == (previous + [Command("ssid1", ssid.text), Command("password1", pass.text), "restart 1"], Accepted)
  {
    var unchecked := Row(HostnameSection, Unchecked, [host]);
    var fixed := Row(WifiSection, Checked, [ssid, pass]);
    var w := [Command("ssid1", ssid.text), Command("password1", pass.text)];
    WifiCollected(ssid, pass);
    assert [fixed][1..] == [];
    assert w + [] == w;
    assert Gathered([fixed]) == (w, None);
    assert [unchecked, fixed][1..] == [fixed];
    assert Gathered([unchecked, fixed]) == (w, None);
    assert previous + w + ["restart 1"] == previous + [w[0], w[1], "restart 1"];
  }

  /** The list survives a missing detail: after the user unchecks a section
      that was collected before the error, fills in what was missing and
      accepts again, the unchecked section's command is still sent. */
  lemma StaleCommandsResent(host: WidgetState, ssid: WidgetState, pass: WidgetState, name: string)
    requires host.text != "" && ssid.text == "" && pass.text != "" && name != ""
    ensures
      var hostRow := Row(HostnameSection, Checked, [host]);
      var wifiRow := Row(WifiSection, Checked, [ssid, pass]);
      var first := AcceptAsWritten([], [hostRow, wifiRow]);
      var fixed := Row(WifiSection, Checked, [ssid.(text := name), pass]);
      var second := AcceptAsWritten(first.0, [hostRow.(check := Unchecked), fixed]);
      && first == ([Command("hostname", host.text)], ShowMissing(Detail("WiFi", "AP1")))
      && second == ([Command("hostname", host.text), Command("ssid1", name), Command("password1", pass.text), "restart 1"], Accepted)
  {
    FirstAccept(host, ssid, pass);
    var h := Command("hostname", host.text);
    SecondAccept([h], host, ssid.(text := name), pass);
    assert [h] + [Command("ssid1", name), Command("password1", pass.text), "restart 1"]
      == [h, Command("ssid1", name), Command("password1", pass.text), "restart 1"];
  }

  lemma WifiMissing(ssid: WidgetState, pass: WidgetState)
    requires ssid.text == ""
    ensures CollectAndSave(WifiSection, [ssid, pass]) == Missing(Detail("WiFi", "AP1"))
  {
    assert MissingAt(WifiSection.fields, [ssid, pass], 0);
    MissingStep(WifiSection.title, WifiSection.fields, [ssid, pass], 0);
  }

  lemma HostCollected(host: WidgetState)
    requires host.text != ""
    ensures CollectAndSave(HostnameSection, [host]) == Ok([Command("hostname", host.text)])
  {
    var fields := HostnameSection.fields;
    var c := Command("hostname", host.text);
    assert CommandAt(fields, [host], 0) == c;
    assert !MissingAt(fields, [host], 0) && EmitsAt(fields, [host], 0);
    CollectStep(HostnameSection.title, fields, [host], 0, []);
    assert [c] + [] == [c];
  }

  lemma WifiCollected(ssid: WidgetState, pass: WidgetState)
    requires ssid.text != "" && pass.text != ""
    ensures CollectAndSave(WifiSection, [ssid, pass]) == Ok([Command("ssid1", ssid.text), Command("password1", pass.text)])
  {
    var fields := WifiSection.fields;
    var states := [ssid, pass];
    var c0, c1 := Command("ssid1", ssid.text), Command("password1", pass.text);
    assert CommandAt(fields, states, 0) == c0;
    assert CommandAt(fields, states, 1) == c1;
    assert !MissingAt(fields, states, 0) && EmitsAt(fields, states, 0);
    assert !MissingAt(fields, states, 1) && EmitsAt(fields, states, 1);
    CollectStep(WifiSection.title, fields, states, 1, []);
    assert [c1] + [] == [c1];
    CollectStep(WifiSection.title, fields, states, 0, [c1]);
    assert [c0] + [c1] == [c0, c1];
  }

  /** `accept` with the list started afresh on every press, as the dialog
      evidently intends: only the rows checked now are sent. */
  function AcceptFresh(rows: seq<Row>): (r: (seq<string>, AcceptOutcome))
    requires WellFormed(rows)
    ensures Gathered(rows).1.Some? ==> r == (Gathered(rows).0, ShowMissing(Gathered(rows).1.value))
    ensures Gathered(rows).1.None? && |Gathered(rows).0| > 0 ==> r == (Gathered(rows).0 + ["restart 1"], Accepted)
    ensures Gathered(rows).1.None? && |Gathered(rows).0| == 0 ==> r == ([], NothingToSend)
  {
    assert [] + Gathered(rows).0 == Gathered(rows).0;
    AcceptAsWritten([], rows)
  }

  /** With the fresh list, what is sent depends only on the current rows:
      unchecking a row removes its commands from what is sent. */
  lemma FreshAcceptSendsOnlyCheckedRows(rows: seq<Row>, k: nat)
    requires WellFormed(rows) && k < |rows| && rows[k].check != Checked
    ensures WellFormed(rows[..k] + rows[k + 1..])
    ensures AcceptFresh(rows) == AcceptFresh(rows[..k] + rows[k + 1..])
  {
    UncheckedRowIgnored(rows, k);
  }

  /** The corrected dialog, in the same situation: the unchecked host name is
      not sent. */
  lemma FreshAcceptScenario(host: WidgetState, ssid: WidgetState, pass: WidgetState)
    requires ssid.text != "" && pass.text != ""
    ensures AcceptFresh([Row(HostnameSection, Unchecked, [host]), Row(WifiSection, Checked, [ssid, pass])])
      == ([Command("ssid1", ssid.text), Command("password1", pass.text), "restart 1"], Accepted)
  {
    SecondAccept([], host, ssid, pass);
    var tail := [Command("ssid1", ssid.text), Command("password1", pass.text), "restart 1"];
    assert [] + tail == tail;
  }

  /** The word that starts the line `send_config` writes. */
  const BacklogWord := "backlog "

  /** The line `send_config` writes to the port. */
  function BacklogLine(commands: seq<string>): (line: string)
    ensures BacklogWord <= line && line[|line| - 1] == '\n'
  {
    BacklogWord + Join(commands, "; ") + "\n"
  }

  /** Reading a backlog line back: split at `;` and drop the one space the
      writer puts after each separator. */
  function ParseBacklog(line: string): Option<seq<string>> {
    var n := |BacklogWord|;
    if |line| > n && line[..n] == BacklogWord && line[|line| - 1] == '\n' then
      Some(Unspace(Split(line[n..|line| - 1], ';')))
    else None
  }

  function DropSpace(p: string): string {
    if |p| > 0 && p[0] == ' ' then p[1..] else p
  }

  /** The first part as it is, the later ones without their leading space. */
  function Unspace(parts: seq<string>): seq<string>
    requires |parts| >= 1
  {
    [parts[0]] + seq(|parts| - 1, i requires 0 <= i < |parts| - 1 => DropSpace(parts[i + 1]))
  }

  /** The commands as they sit between the separators: all but the first
      carry the space of `"; "`. */
  function Spaced(commands: seq<string>): (r: seq<string>)
    requires |commands| >= 1
    ensures |r| == |commands| && r[0] == commands[0]
    ensures forall i :: 1 <= i < |r| ==> r[i] == " " + commands[i]
  {
    [commands[0]] + seq(|commands| - 1, i requires 0 <= i < |commands| - 1 => " " + commands[i + 1])
  }

  lemma {:induction false} JoinSpaced(commands: seq<string>)
    requires |commands| >= 1
    ensures Join(commands, "; ") == Join(Spaced(commands), [';'])
  {
    if |commands| > 1 {
      JoinSpaced(commands[1..]);
      var sp := Spaced(commands);
      var tail := Spaced(commands[1..]);
      SpacedTail(commands);
      JoinHeadPrefix(tail, ' ');
      JoinCons(commands[0], commands[1..], "; ");
      JoinCons(sp[0], sp[1..], [';']);
      assert [sp[0]] + sp[1..] == sp;
      assert [commands[0]] + commands[1..] == commands;
    }
  }

  /** Spacing a list: the tail's spaced form with a space before its head. */
  lemma SpacedTail(commands: seq<string>)
    requires |commands| > 1
    ensures var tail := Spaced(commands[1..]);
      Spaced(commands)[1..] == [[' '] + tail[0]] + tail[1..]
  {
    var sp := Spaced(commands);
    var tail := Spaced(commands[1..]);
    var rhs := [[' '] + tail[0]] + tail[1..];
    forall i | 0 <= i < |sp| - 1
      ensures sp[1..][i] == rhs[i]
    {
      if i > 0 {
        assert rhs[i] == tail[i];
      }
    }
  }

  /** Prefixing the first part of a join prefixes the joined text. */
  lemma {:induction false} JoinHeadPrefix(parts: seq<string>, c: char)
    requires |parts| >= 1
    ensures Join([[c] + parts[0]] + parts[1..], [';']) == [c] + Join(parts, [';'])
  {
    if |parts| > 1 {
      JoinCons([c] + parts[0], parts[1..], [';']);
      JoinCons(parts[0], parts[1..], [';']);
      assert [parts[0]] + parts[1..] == parts;
    }
  }

  /** Splitting the joined commands at `;` gives them back with their spaces. */
  lemma SplitBacklogBody(commands: seq<string>)
    requires |commands| >= 1
    requires forall i :: 0 <= i < |commands| ==> ';' !in commands[i]
    ensures Split(Join(commands, "; "), ';') == Spaced(commands)
  {
    JoinSpaced(commands);
    var sp := Spaced(commands);
    forall i | 0 <= i < |sp|
      ensures ';' !in sp[i]
    {
      if i > 0 {
        assert sp[i] == " " + commands[i];
      }
    }
    SplitJoin(sp, ';');
  }

  /** Dropping the leading space of each spaced command restores the commands. */
  lemma UnspaceSpaced(commands: seq<string>)
    requires |commands| >= 1
    ensures Unspace(Spaced(commands)) == commands
  {
    var sp := Spaced(commands);
    var parsed := Unspace(sp);
    forall i | 0 <= i < |commands|
      ensures parsed[i] == commands[i]
    {
      if i > 0 {
        assert parsed[i] == DropSpace(" " + commands[i]);
        assert (" " + commands[i])[1..] == commands[i];
      }
    }
  }

  /** The text between a fixed head and a final newline. */
  lemma Framed(head: string, body: string)
    ensures var line := head + body + "\n";
      line[..|head|] == head && line[|head|..|line| - 1] == body
  {
  }

  /** The backlog line gives back the commands, provided there is at least one
      and none contains `;` (a `;` inside a command would split it). */
  lemma BacklogRoundTrip(commands: seq<string>)
    requires |commands| >= 1
    requires forall i :: 0 <= i < |commands| ==> ';' !in commands[i]
    ensures ParseBacklog(BacklogLine(commands)) == Some(commands)
  {
    Framed(BacklogWord, Join(commands, "; "));
    SplitBacklogBody(commands);
    UnspaceSpaced(commands);
  }
}
