/**
  The configuration side of the RGW subcommands: parsing HOST[:NAME]
  arguments (`colon_separated`), adding each gateway's client section to
  the cluster configuration without touching what is already there, the
  guard that refuses to save a changed configuration without
  --overwrite-conf (`rgw_create`), and the listing of configured gateways
  (`rgw_list`).
*/
module Rgw {
  import opened Wrappers
  import opened PyStr
  import opened IniConfig

  /** One gateway to create: the host it runs on and its name ("rgw.<id>"). */
  datatype Daemon = Daemon(host: string, name: string)

  /** `colon_separated`: "host:id" gives (host, "rgw.id"); any other argument is both host and id. */
  function ColonSeparated(s: string): (d: Daemon) {
    if Count(s, ':') == 1 then
      var parts := Split(s, ':');
      SplitCount(s, ':');
      Daemon(parts[0], "rgw." + parts[1])
    else
      Daemon(s, "rgw." + s)
  }

  /** The gateway name always starts with "rgw.". */
  lemma ColonSeparatedName(s: string)
    ensures StartsWith(ColonSeparated(s).name, "rgw.")
  {
    var n := ColonSeparated(s).name;
    assert n[..4] == "rgw.";
  }

  /**
    With exactly one ':', the host is what precedes it and the name's id
    what follows it; neither holds a ':'.
  */
  lemma ColonSeparatedSplit(s: string)
    requires Count(s, ':') == 1
    ensures var d := ColonSeparated(s);
      && d.host + ":" + d.name[4..] == s
      && !HasChar(d.host, ':') && !HasChar(d.name[4..], ':')
  {
    var d := ColonSeparated(s);
    var parts := Split(s, ':');
    SplitCount(s, ':');
    assert d.name[4..] == parts[1];
    JoinSplit(s, ':');
    assert Join(':', parts) == parts[0] + [':'] + parts[1];
    SplitPartsFree(s, ':');
    HasCharIn(parts[0], ':');
    HasCharIn(parts[1], ':');
  }

  /** Without exactly one ':', the whole argument is the host and the id. */
  lemma ColonSeparatedWhole(s: string)
    requires Count(s, ':') != 1
    ensures ColonSeparated(s) == Daemon(s, "rgw." + s)
  {
  }

  /** Parsing "host:id" for a host and an id free of ':' gives them back. */
  lemma ColonSeparatedOfPair(host: string, id: string)
    requires !HasChar(host, ':') && !HasChar(id, ':')
    ensures ColonSeparated(host + ":" + id) == Daemon(host, "rgw." + id)
  {
    var s := host + ":" + id;
    assert s == host + [':'] + id;
    SplitAfter(host, ':', id);
    assert Split(id, ':') == [id];
    SplitCount(s, ':');
  }

  // Updating the configuration.

  /** The port every new gateway listens on. */
  const Port: nat := 7480

  /** The frontend every new gateway section gets, `"civetweb port=%s" % port`. */
  const Frontends := "civetweb port=" + Decimal(Port)

  /** The frontend is civetweb on port 7480. */
  lemma FrontendsOnPort()
    ensures Frontends == "civetweb port=7480"
  {
    assert Decimal(Port) == "7480" by {
      assert Decimal(7) == "7";
      assert Decimal(74) == "74";
      assert Decimal(748) == "748";
    }
  }

  /** The three options `rgw_create` fills in. */
  predicate IsGatewayOption(option: string) {
    option == "host" || option == "rgw_dns_name" || option == "rgw frontends"
  }

  /** The configuration section of gateway `name`. */
  function Entity(name: string): string {
    "client." + name
  }

  /** The value `rgw_create` gives a gateway option of `d` that is missing. */
  function Default(d: Daemon, option: string): string {
    if option == "rgw frontends" then Frontends else d.host
  }

  /** Sets `option` in the existing `section` unless it is already there. */
  function AddIfAbsent(ini: Ini, section: string, option: string, value: string): (r: Ini)
    requires ini.HasSection(section)
    ensures r.HasSection(section)
  {
    if ini.HasOption(section, option) then ini else ini.Set(section, option, value).value
  }

  /** One pass of the loop of `rgw_create`: the section, then each option, added only if missing. */
  function Configure(ini: Ini, d: Daemon): (r: Ini)
    ensures r.HasSection(Entity(d.name))
  {
    var e := Entity(d.name);
    var withSection := if ini.HasSection(e) then ini else ini.AddSection(e);
    var withHost := AddIfAbsent(withSection, e, "host", d.host);
    var withDns := AddIfAbsent(withHost, e, "rgw_dns_name", d.host);
    AddIfAbsent(withDns, e, "rgw frontends", Frontends)
  }

  /** The whole loop of `rgw_create`, over the gateways in order. */
  function ConfigureAll(ini: Ini, ds: seq<Daemon>): Ini {
    if ds == [] then ini else Configure(ConfigureAll(ini, ds[..|ds| - 1]), ds[|ds| - 1])
  }

  /** Gateway `d`'s section already holds all three options. */
  predicate Complete(ini: Ini, d: Daemon) {
    var e := Entity(d.name);
    ini.HasOption(e, "host") && ini.HasOption(e, "rgw_dns_name") && ini.HasOption(e, "rgw frontends")
  }

  /** The flag `changed_cfg`: some pass found its section or an option missing. */
  function Changed(ini: Ini, ds: seq<Daemon>): bool {
    if ds == [] then false
    else Changed(ini, ds[..|ds| - 1]) || !Complete(ConfigureAll(ini, ds[..|ds| - 1]), ds[|ds| - 1])
  }

  /** The value the first gateway of `ds` whose section is `section` gives `option`, if any. */
  function FirstDefault(ds: seq<Daemon>, section: string, option: string): Option<string> {
    if ds == [] then None
    else
      var earlier := FirstDefault(ds[..|ds| - 1], section, option);
      var d := ds[|ds| - 1];
      if earlier.Some? then earlier
      else if section == Entity(d.name) && IsGatewayOption(option) then Some(Default(d, option))
      else None
  }

  /** What `rgw_create` does once the configuration is updated. */
  datatype Outcome = Unchanged | SavedTo(path: string)

  /** The local configuration file: --ceph-conf when given and not empty, "<cluster>.conf" otherwise. */
  function CfgPath(cephConf: Option<string>, cluster: string): string {
    if cephConf.Some? && cephConf.value != [] then cephConf.value else cluster + ".conf"
  }

  const OverwritePrefix := "The local config file '"

  function OverwriteMessage(path: string): string {
    OverwritePrefix + path + "' exists with content that must be changed; use --overwrite-conf to update"
  }

  /** An unchanged configuration is not saved; a changed one is saved only under --overwrite-conf. */
  function SaveDecision(changed: bool, overwrite: bool, path: string): Result<Outcome, string> {
    if !changed then Ok(Unchanged)
    else if !overwrite then Err(OverwriteMessage(path))
    else Ok(SavedTo(path))
  }

  /** One pass of the loop: adds what gateway `d` lacks, and says whether anything was added. */
  method ConfigureGateway(cfg: Config, d: Daemon) returns (added: bool)
    modifies cfg
    ensures cfg.State() == Configure(old(cfg.State()), d)
    ensures added == !Complete(old(cfg.State()), d)
  {
    var entity := Entity(d.name);
    added := false;
    if !cfg.HasSection(entity) {
      cfg.AddSection(entity);
      added := true;
    }
    if !cfg.HasOption(entity, "host") {
      var _ := cfg.Set(entity, "host", d.host);
      added := true;
    }
    if !cfg.HasOption(entity, "rgw_dns_name") {
      var _ := cfg.Set(entity, "rgw_dns_name", d.host);
      added := true;
    }
    if !cfg.HasOption(entity, "rgw frontends") {
      var _ := cfg.Set(entity, "rgw frontends", Frontends);
      added := true;
    }
  }

  /**
    The configuration part of `rgw_create`: adds what each gateway lacks to
    `cfg`, then decides whether the result may be saved.
  */
  method RgwCreateConfig(cfg: Config, daemons: seq<Daemon>, overwrite: bool, cephConf: Option<string>, cluster: string)
    returns (r: Result<Outcome, string>)
    modifies cfg
    ensures cfg.State() == ConfigureAll(old(cfg.State()), daemons)
    ensures r == SaveDecision(Changed(old(cfg.State()), daemons), overwrite, CfgPath(cephConf, cluster))
  {
    var changed := false;
    for i := 0 to |daemons|
      invariant cfg.State() == ConfigureAll(old(cfg.State()), daemons[..i])
      invariant changed == Changed(old(cfg.State()), daemons[..i])
    {
      assert daemons[..i + 1][..i] == daemons[..i];
      var added := ConfigureGateway(cfg, daemons[i]);
      changed := changed || added;
    }
    assert daemons[..|daemons|] == daemons;
    if changed {
      var cfgPath := CfgPath(cephConf, cluster);
      if !overwrite {
        return Err(OverwriteMessage(cfgPath));
      }
      return Ok(SavedTo(cfgPath));
    }
    return Ok(Unchanged);
  }

  // What the update does.

  /** The value gateway `d` gives `option` of `section` when it is missing. */
  function Offer(d: Daemon, section: string, option: string): (r: Option<string>)
    ensures r.Some? <==> section == Entity(d.name) && IsGatewayOption(option)
  {
    if section == Entity(d.name) && IsGatewayOption(option) then Some(Default(d, option)) else None
  }

  /** The sections of the gateways of `ds`. */
  function Entities(ds: seq<Daemon>): set<string> {
    if ds == [] then {} else Entities(ds[..|ds| - 1]) + {Entity(ds[|ds| - 1].name)}
  }

  /** Adding a section changes no option, anywhere. */
  lemma AddSectionAt(ini: Ini, section: string, s: string, o: string)
    requires !ini.HasSection(section)
    ensures ini.AddSection(section).SafeGet(s, o) == ini.SafeGet(s, o)
  {
  }

  /** Setting an absent option gives it `value` and changes no other. */
  lemma AddIfAbsentAt(ini: Ini, section: string, option: string, value: string, s: string, o: string)
    requires ini.HasSection(section)
    ensures AddIfAbsent(ini, section, option, value).SafeGet(s, o)
         == if ini.HasOption(s, o) then ini.SafeGet(s, o)
            else if (s, o) == (section, option) then Some(value) else None
  {
  }

  /** One pass keeps every option that is there and adds the gateway's missing ones. */
  lemma ConfigureAt(ini: Ini, d: Daemon, s: string, o: string)
    ensures Configure(ini, d).SafeGet(s, o) == if ini.HasOption(s, o) then ini.SafeGet(s, o) else Offer(d, s, o)
  {
    var e := Entity(d.name);
    var withSection := if ini.HasSection(e) then ini else ini.AddSection(e);
    if !ini.HasSection(e) {
      AddSectionAt(ini, e, s, o);
    }
    var withHost := AddIfAbsent(withSection, e, "host", d.host);
    var withDns := AddIfAbsent(withHost, e, "rgw_dns_name", d.host);
    AddIfAbsentAt(withSection, e, "host", d.host, s, o);
    AddIfAbsentAt(withHost, e, "rgw_dns_name", d.host, s, o);
    AddIfAbsentAt(withDns, e, "rgw frontends", Frontends, s, o);
  }

  /** The only section one pass can add is the gateway's, and it adds it after the others. */
  lemma ConfigureSections(ini: Ini, d: Daemon)
    ensures var r := Configure(ini, d);
      r.table.Keys == ini.table.Keys + {Entity(d.name)} && ini.names <= r.names
  {
  }

  /**
    After the whole loop, an option that was there keeps its value; a
    missing gateway option of a gateway's section gets the value of the
    first gateway with that section; nothing else appears.
  */
  lemma {:induction false} ConfigureAllValues(ini: Ini, ds: seq<Daemon>, s: string, o: string)
    ensures ConfigureAll(ini, ds).SafeGet(s, o)
         == if ini.HasOption(s, o) then ini.SafeGet(s, o) else FirstDefault(ds, s, o)
  {
    if ds != [] {
      var front, last := ds[..|ds| - 1], ds[|ds| - 1];
      ConfigureAllValues(ini, front, s, o);
      ConfigureAt(ConfigureAll(ini, front), last, s, o);
    }
  }

  /** The sections after the loop: those there before, in their order, then the gateways' new ones. */
  lemma {:induction false} ConfigureAllSections(ini: Ini, ds: seq<Daemon>)
    ensures var r := ConfigureAll(ini, ds);
      ini.names <= r.names && r.table.Keys == ini.table.Keys + Entities(ds)
  {
    if ds != [] {
      var front, last := ds[..|ds| - 1], ds[|ds| - 1];
      ConfigureAllSections(ini, front);
      ConfigureSections(ConfigureAll(ini, front), last);
    }
  }

  /** `FirstDefault` is the offer of the first gateway whose section is `section`. */
  lemma {:induction false} FirstDefaultIsFirst(ds: seq<Daemon>, section: string, option: string, j: nat)
    requires j < |ds| && Entity(ds[j].name) == section && IsGatewayOption(option)
    requires forall i :: 0 <= i < j ==> Entity(ds[i].name) != section
    ensures FirstDefault(ds, section, option) == Some(Default(ds[j], option))
  {
    var front := ds[..|ds| - 1];
    if j < |front| {
      assert front[j] == ds[j];
      assert forall i :: 0 <= i < j ==> front[i] == ds[i];
      FirstDefaultIsFirst(front, section, option, j);
    } else {
      assert forall i :: 0 <= i < |front| ==> front[i] == ds[i];
      FirstDefaultNone(front, section, option);
    }
  }

  /** No gateway of `ds` has section `section`: nothing is offered for it. */
  lemma {:induction false} FirstDefaultNone(ds: seq<Daemon>, section: string, option: string)
    requires forall i :: 0 <= i < |ds| ==> Entity(ds[i].name) != section
    ensures FirstDefault(ds, section, option) == None
  {
    if ds != [] {
      var front := ds[..|ds| - 1];
      assert forall i :: 0 <= i < |front| ==> front[i] == ds[i];
      FirstDefaultNone(front, section, option);
    }
  }

  /** Each pass keeps every section named once. */
  lemma {:induction false} ConfigureAllWf(ini: Ini, ds: seq<Daemon>)
    requires ini.Wf()
    ensures ConfigureAll(ini, ds).Wf()
  {
    if ds != [] {
      var front, d := ds[..|ds| - 1], ds[|ds| - 1];
      ConfigureAllWf(ini, front);
      var x := ConfigureAll(ini, front);
      var e := Entity(d.name);
      var withSection := if x.HasSection(e) then x else x.AddSection(e);
      if !x.HasSection(e) {
        AddSectionWf(x, e);
      }
      var withHost := AddIfAbsent(withSection, e, "host", d.host);
      var withDns := AddIfAbsent(withHost, e, "rgw_dns_name", d.host);
      AddIfAbsentWf(withSection, e, "host", d.host);
      AddIfAbsentWf(withHost, e, "rgw_dns_name", d.host);
      AddIfAbsentWf(withDns, e, "rgw frontends", Frontends);
    }
  }

  lemma AddIfAbsentWf(ini: Ini, section: string, option: string, value: string)
    requires ini.Wf() && ini.HasSection(section)
    ensures AddIfAbsent(ini, section, option, value).Wf()
  {
    if !ini.HasOption(section, option) {
      SetWf(ini, section, option, value);
    }
  }

  /** A section belongs to `Entities(ds)` exactly when some gateway of `ds` has it. */
  lemma {:induction false} EntitiesIn(ds: seq<Daemon>, s: string)
    ensures s in Entities(ds) <==> exists k :: 0 <= k < |ds| && Entity(ds[k].name) == s
  {
    if ds != [] {
      var front := ds[..|ds| - 1];
      EntitiesIn(front, s);
      if exists k :: 0 <= k < |front| && Entity(front[k].name) == s {
        var k :| 0 <= k < |front| && Entity(front[k].name) == s;
        assert ds[k] == front[k];
      }
      if exists k :: 0 <= k < |ds| && Entity(ds[k].name) == s {
        var k :| 0 <= k < |ds| && Entity(ds[k].name) == s;
        if k < |front| {
          assert ds[k] == front[k];
        }
      }
    }
  }

  /** Some value is offered for `option` of `section` exactly when a gateway has that section. */
  lemma {:induction false} FirstDefaultSome(ds: seq<Daemon>, section: string, option: string)
    ensures FirstDefault(ds, section, option).Some? <==> section in Entities(ds) && IsGatewayOption(option)
  {
    if ds != [] {
      FirstDefaultSome(ds[..|ds| - 1], section, option);
    }
  }

  /** Sections no gateway names keep their options exactly, and appear only if they were there. */
  lemma OtherSectionsUnchanged(ini: Ini, ds: seq<Daemon>, s: string)
    requires s !in Entities(ds)
    ensures var r := ConfigureAll(ini, ds);
      && (s in r.table <==> s in ini.table)
      && (s in ini.table ==> r.table[s] == ini.table[s])
  {
    var r := ConfigureAll(ini, ds);
    ConfigureAllSections(ini, ds);
    if s in ini.table {
      forall o ensures o in r.table[s] <==> o in ini.table[s]
      ensures o in ini.table[s] ==> r.table[s][o] == ini.table[s][o]
      {
        ConfigureAllValues(ini, ds, s, o);
        FirstDefaultSome(ds, s, o);
        assert r.SafeGet(s, o) == ini.SafeGet(s, o);
      }
      assert r.table[s] == ini.table[s];
    }
  }

  /**
    The first gateway with a given section decides the options that
    section lacked: its host for host and rgw_dns_name, the fixed
    frontend for rgw frontends; options already there keep their values.
  */
  lemma FirstHostWins(ini: Ini, ds: seq<Daemon>, j: nat)
    requires j < |ds|
    requires forall i :: 0 <= i < j ==> Entity(ds[i].name) != Entity(ds[j].name)
    ensures var r, e := ConfigureAll(ini, ds), Entity(ds[j].name);
      && r.SafeGet(e, "host") == (if ini.HasOption(e, "host") then ini.SafeGet(e, "host") else Some(ds[j].host))
      && r.SafeGet(e, "rgw_dns_name") == (if ini.HasOption(e, "rgw_dns_name") then ini.SafeGet(e, "rgw_dns_name") else Some(ds[j].host))
      && r.SafeGet(e, "rgw frontends") == (if ini.HasOption(e, "rgw frontends") then ini.SafeGet(e, "rgw frontends") else Some("civetweb port=7480"))
  {
    var e := Entity(ds[j].name);
    ConfigureAllValues(ini, ds, e, "host");
    ConfigureAllValues(ini, ds, e, "rgw_dns_name");
    ConfigureAllValues(ini, ds, e, "rgw frontends");
    FirstDefaultIsFirst(ds, e, "host", j);
    FirstDefaultIsFirst(ds, e, "rgw_dns_name", j);
    FirstDefaultIsFirst(ds, e, "rgw frontends", j);
    FrontendsOnPort();
  }

  /** Some gateway's section lacks one of the three options. */
  predicate Missing(ini: Ini, ds: seq<Daemon>) {
    exists k :: 0 <= k < |ds| && !Complete(ini, ds[k])
  }

  /** A pass over a complete gateway changes nothing. */
  lemma ConfigureComplete(ini: Ini, d: Daemon)
    requires Complete(ini, d)
    ensures Configure(ini, d) == ini
  {
  }

  /** With every gateway complete, the loop changes nothing and does not set the flag. */
  lemma {:induction false} AllComplete(ini: Ini, ds: seq<Daemon>)
    requires !Missing(ini, ds)
    ensures ConfigureAll(ini, ds) == ini && !Changed(ini, ds)
  {
    if ds != [] {
      var front := ds[..|ds| - 1];
      assert !Missing(ini, front) by {
        forall k | 0 <= k < |front| ensures Complete(ini, front[k]) {
          assert front[k] == ds[k];
        }
      }
      AllComplete(ini, front);
      assert Complete(ini, ds[|ds| - 1]);
      ConfigureComplete(ini, ds[|ds| - 1]);
    }
  }

  /** After the loop's earlier passes, a gateway is complete when an earlier one shared its section or it was complete to begin with. */
  lemma CompleteAfter(ini: Ini, front: seq<Daemon>, d: Daemon)
    ensures Complete(ConfigureAll(ini, front), d) <==> Entity(d.name) in Entities(front) || Complete(ini, d)
  {
    var e := Entity(d.name);
    ConfigureAllValues(ini, front, e, "host");
    ConfigureAllValues(ini, front, e, "rgw_dns_name");
    ConfigureAllValues(ini, front, e, "rgw frontends");
    FirstDefaultSome(front, e, "host");
    FirstDefaultSome(front, e, "rgw_dns_name");
    FirstDefaultSome(front, e, "rgw frontends");
  }

  /** `changed_cfg` ends up set exactly when some gateway lacked an option to begin with. */
  lemma {:induction false} ChangedIffMissing(ini: Ini, ds: seq<Daemon>)
    ensures Changed(ini, ds) <==> Missing(ini, ds)
  {
    if ds != [] {
      var front, d := ds[..|ds| - 1], ds[|ds| - 1];
      var mid := ConfigureAll(ini, front);
      assert Changed(ini, ds) == (Changed(ini, front) || !Complete(mid, d));
      ChangedIffMissing(ini, front);
      CompleteAfter(ini, front, d);
      MissingSnoc(ini, ds);
      if !Complete(ini, d) && Entity(d.name) in Entities(front) {
        SharedSectionMissing(ini, front, d);
      }
    }
  }

  /** Some gateway lacks an option exactly when an earlier one does or the last one does. */
  lemma MissingSnoc(ini: Ini, ds: seq<Daemon>)
    requires ds != []
    ensures Missing(ini, ds) <==> Missing(ini, ds[..|ds| - 1]) || !Complete(ini, ds[|ds| - 1])
  {
    var front := ds[..|ds| - 1];
    if Missing(ini, front) {
      var k :| 0 <= k < |front| && !Complete(ini, front[k]);
      assert ds[k] == front[k];
    }
    if Missing(ini, ds) && Complete(ini, ds[|ds| - 1]) {
      var k :| 0 <= k < |ds| && !Complete(ini, ds[k]);
      assert front[k] == ds[k];
    }
  }

  /** A gateway that lacks an option, and whose section an earlier gateway shares, makes that one lack it too. */
  lemma SharedSectionMissing(ini: Ini, front: seq<Daemon>, d: Daemon)
    requires !Complete(ini, d) && Entity(d.name) in Entities(front)
    ensures Missing(ini, front)
  {
    EntitiesIn(front, Entity(d.name));
    var k :| 0 <= k < |front| && Entity(front[k].name) == Entity(d.name);
    assert !Complete(ini, front[k]);
  }

  /** The flag is accurate: it is set exactly when the loop changed the configuration. */
  lemma ChangedIffModified(ini: Ini, ds: seq<Daemon>)
    ensures Changed(ini, ds) <==> ConfigureAll(ini, ds) != ini
  {
    ChangedIffMissing(ini, ds);
    if Missing(ini, ds) {
      var k :| 0 <= k < |ds| && !Complete(ini, ds[k]);
      ModifiedWhenMissing(ini, ds, k);
    } else {
      AllComplete(ini, ds);
    }
  }

  /** A gateway that lacks an option makes the loop change the configuration. */
  lemma ModifiedWhenMissing(ini: Ini, ds: seq<Daemon>, k: nat)
    requires k < |ds| && !Complete(ini, ds[k])
    ensures ConfigureAll(ini, ds) != ini
  {
    var e := Entity(ds[k].name);
    var o :=
      if !ini.HasOption(e, "host") then "host"
      else if !ini.HasOption(e, "rgw_dns_name") then "rgw_dns_name"
      else "rgw frontends";
    EntitiesIn(ds, e);
    ConfigureAllValues(ini, ds, e, o);
    FirstDefaultSome(ds, e, o);
    assert ConfigureAll(ini, ds).SafeGet(e, o).Some? && ini.SafeGet(e, o).None?;
  }

  /**
    Running the update again on its own result changes nothing, so a
    second `rgw_create` for the same gateways neither saves nor raises.
  */
  lemma ConfigureIdempotent(ini: Ini, ds: seq<Daemon>, overwrite: bool, path: string)
    ensures var r := ConfigureAll(ini, ds);
      && ConfigureAll(r, ds) == r
      && !Changed(r, ds)
      && SaveDecision(Changed(r, ds), overwrite, path) == Ok(Unchanged)
  {
    var r := ConfigureAll(ini, ds);
    forall k | 0 <= k < |ds| ensures Complete(r, ds[k]) {
      var e := Entity(ds[k].name);
      EntitiesIn(ds, e);
      CompleteAfter(ini, ds, ds[k]);
    }
    AllComplete(r, ds);
  }

  /** A changed configuration is refused without --overwrite-conf, with a message naming the file. */
  lemma GuardRefuses(changed: bool, overwrite: bool, path: string)
    ensures SaveDecision(changed, overwrite, path).Err? <==> changed && !overwrite
    ensures SaveDecision(changed, overwrite, path).Err? ==>
      OccursAt(path, SaveDecision(changed, overwrite, path).error, |OverwritePrefix|)
    ensures SaveDecision(changed, overwrite, path) == Ok(SavedTo(path)) <==> changed && overwrite
  {
    var m := OverwriteMessage(path);
    var n := |OverwritePrefix|;
    assert m[n..n + |path|] == path;
  }

  // Listing the gateways.

  /** How the listing prints a host: its value, or None when the section has none. */
  function HostText(host: Option<string>): string {
    if host.Some? then host.value else "None"
  }

  /** The sections `rgw_list` reports. */
  predicate IsGatewaySection(section: string) {
    StartsWith(section, "client.rgw")
  }

  /** The line `rgw_list` prints for a gateway section: host, ':', the name after "client.". */
  function ListLine(ini: Ini, section: string): string
    requires IsGatewaySection(section)
  {
    HostText(ini.SafeGet(section, "host")) + ":" + section[7..]
  }

  /** The gateway sections among `sections`, in their order. */
  function GatewaySections(sections: seq<string>): (r: seq<string>)
    ensures forall k :: 0 <= k < |r| ==> IsGatewaySection(r[k])
  {
    if sections == [] then []
    else
      var front := GatewaySections(sections[..|sections| - 1]);
      var s := sections[|sections| - 1];
      if IsGatewaySection(s) then front + [s] else front
  }

  /** `rgw_list`: one line per gateway section, in section order. */
  method RgwList(cfg: Config) returns (lines: seq<string>)
    ensures lines == Listed(cfg.State())
  {
    lines := [];
    var sections := cfg.Sections();
    for i := 0 to |sections|
      invariant |lines| == |GatewaySections(sections[..i])|
      invariant forall k :: 0 <= k < |lines| ==> lines[k] == ListLine(cfg.State(), GatewaySections(sections[..i])[k])
    {
      assert sections[..i + 1][..i] == sections[..i];
      var section := sections[i];
      if !StartsWith(section, "client.rgw") {
        continue;
      }
      var host := cfg.SafeGet(section, "host");
      var entity := section[7..];
      lines := lines + [HostText(host) + ":" + entity];
    }
    assert sections[..|sections|] == sections;
    assert lines == Listed(cfg.State());
  }

  /** A section is reported exactly when it is one of the sections and starts with "client.rgw". */
  lemma {:induction false} GatewaySectionsIn(sections: seq<string>, s: string)
    ensures s in GatewaySections(sections) <==> s in sections && IsGatewaySection(s)
  {
    if sections != [] {
      var front := sections[..|sections| - 1];
      GatewaySectionsIn(front, s);
      assert sections == front + [sections[|sections| - 1]];
    }
  }

  /** The reported name, behind "client.", is the rest of the section name and starts with "rgw". */
  lemma ListedEntity(section: string)
    requires IsGatewaySection(section)
    ensures "client." + section[7..] == section && StartsWith(section[7..], "rgw")
  {
    assert section[..10] == "client.rgw";
    assert section[7..][..3] == section[7..10];
  }

  /**
    Every gateway `rgw_create` configured, named as `colon_separated`
    names it, is listed afterwards with the host its section holds.
  */
  lemma CreatedAreListed(ini: Ini, ds: seq<Daemon>, k: nat)
    requires ini.Wf()
    requires k < |ds| && StartsWith(ds[k].name, "rgw.")
    ensures var r := ConfigureAll(ini, ds); var e := Entity(ds[k].name);
      && r.SafeGet(e, "host").Some?
      && r.SafeGet(e, "host").value + ":" + ds[k].name in Listed(r)
  {
    var r := ConfigureAll(ini, ds);
    var e := Entity(ds[k].name);
    ConfiguredSection(ini, ds, k);
    GatewayEntity(ds[k].name);
    ListedMember(r, e);
  }

  /** After the loop, each gateway's section is among the sections and has a host. */
  lemma ConfiguredSection(ini: Ini, ds: seq<Daemon>, k: nat)
    requires ini.Wf() && k < |ds|
    ensures var r := ConfigureAll(ini, ds); var e := Entity(ds[k].name);
      e in r.names && r.SafeGet(e, "host").Some?
  {
    var e := Entity(ds[k].name);
    EntitiesIn(ds, e);
    ConfigureAllSections(ini, ds);
    ConfigureAllWf(ini, ds);
    ConfigureAllValues(ini, ds, e, "host");
    FirstDefaultSome(ds, e, "host");
  }

  /** The section of a gateway named "rgw.<id>" is a gateway section whose listed name is the gateway's. */
  lemma GatewayEntity(name: string)
    requires StartsWith(name, "rgw.")
    ensures IsGatewaySection(Entity(name)) && Entity(name)[7..] == name
  {
    var e := Entity(name);
    assert e[..10] == "client.rgw";
  }

  /** Each gateway section among the sections gets its line in the listing. */
  lemma ListedMember(ini: Ini, s: string)
    requires s in ini.names && IsGatewaySection(s)
    ensures ListLine(ini, s) in Listed(ini)
  {
    GatewaySectionsIn(ini.names, s);
    var g := GatewaySections(ini.names);
    var j :| 0 <= j < |g| && g[j] == s;
    assert Listed(ini)[j] == ListLine(ini, s);
  }

  /** What `rgw_list` prints for a configuration. */
  function Listed(ini: Ini): (lines: seq<string>)
    ensures |lines| == |GatewaySections(ini.names)|
  {
    var g := GatewaySections(ini.names);
    seq(|g|, k requires 0 <= k < |g| => ListLine(ini, g[k]))
  }
}
