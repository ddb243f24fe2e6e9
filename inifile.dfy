/**
  The part of a ConfigParser object the deployment code uses: sections in
  the order they were added, each holding options and their values.
  `Ini` is its state as a value and states what each operation does;
  `Config` is the object the code updates in place.
*/
module IniConfig {
  import opened Wrappers

  /** What `set` raises for a section the parser does not hold. */
  datatype ConfigError = NoSectionError(section: string)

  /** The sections' names in order, and the options of each section. */
  datatype Ini = Ini(names: seq<string>, table: map<string, map<string, string>>)
  {
    /** Every section is named once, and exactly the named sections have options. */
    ghost predicate Wf() {
      && (forall i, j :: 0 <= i < j < |names| ==> names[i] != names[j])
      && (forall s :: s in table <==> s in names)
    }

    predicate HasSection(section: string) {
      section in table
    }

    predicate HasOption(section: string, option: string) {
      section in table && option in table[section]
    }

    /** `add_section` of a section not yet present: an empty section, last in order. */
    function AddSection(section: string): (r: Ini)
      requires !HasSection(section)
      ensures r.names == names + [section]
      ensures r.HasSection(section) && forall o :: !r.HasOption(section, o)
    {
      Ini(names + [section], table[section := map[]])
    }

    /** `set`: gives `option` the value `value` in `section`, or raises NoSectionError. */
    function Set(section: string, option: string, value: string): (r: Result<Ini, ConfigError>)
      ensures r.Err? <==> !HasSection(section)
      ensures r.Err? ==> r.error == NoSectionError(section)
    {
      if section !in table then Err(NoSectionError(section))
      else Ok(Ini(names, table[section := table[section][option := value]]))
    }

    /** The value of `option` in `section`, or None when either is missing. */
    function SafeGet(section: string, option: string): (r: Option<string>)
      ensures r.Some? <==> HasOption(section, option)
    {
      if HasOption(section, option) then Some(table[section][option]) else None
    }
  }

  /** Adding a new section keeps every section named once. */
  lemma AddSectionWf(ini: Ini, section: string)
    requires ini.Wf() && !ini.HasSection(section)
    ensures ini.AddSection(section).Wf()
  {
  }

  /** Setting an option keeps the sections as they are. */
  lemma SetWf(ini: Ini, section: string, option: string, value: string)
    requires ini.Wf() && ini.HasSection(section)
    ensures ini.Set(section, option, value).value.Wf()
  {
  }

  /** `set` changes the one option it names and nothing else. */
  lemma SetOnly(ini: Ini, section: string, option: string, value: string)
    requires ini.HasSection(section)
    ensures var r := ini.Set(section, option, value).value;
      && r.names == ini.names
      && r.table.Keys == ini.table.Keys
      && r.SafeGet(section, option) == Some(value)
      && (forall s, o :: (s, o) != (section, option) ==> r.SafeGet(s, o) == ini.SafeGet(s, o))
  {
    var r := ini.Set(section, option, value).value;
    assert r.table.Keys == ini.table.Keys;
  }

  /** A parser object whose sections the code adds and whose options it sets in place. */
  class Config {
    var names: seq<string>
    var table: map<string, map<string, string>>

    /** The object's state as a value. */
    function State(): Ini
      reads this
    {
      Ini(names, table)
    }

    /** A parser holding `ini`, as read from a file. */
    constructor (ini: Ini)
      requires ini.Wf()
      ensures State() == ini
    {
      names := ini.names;
      table := ini.table;
    }

    /** `sections()`: the section names, in order. */
    function Sections(): (r: seq<string>)
      reads this
      ensures r == State().names
    {
      names
    }

    /** `has_section(section)`. */
    function HasSection(section: string): (b: bool)
      reads this
      ensures b == State().HasSection(section)
    {
      section in table
    }

    /** `has_option(section, option)`: false when the section is missing. */
    function HasOption(section: string, option: string): (b: bool)
      reads this
      ensures b == State().HasOption(section, option)
    {
      section in table && option in table[section]
    }

    /** `safe_get(section, option)`: the value, or None when the section or the option is missing. */
    function SafeGet(section: string, option: string): (r: Option<string>)
      reads this
      ensures r == State().SafeGet(section, option)
    {
      if section in table && option in table[section] then Some(table[section][option]) else None
    }

    /** `add_section(section)` for a section not yet present. */
    method AddSection(section: string)
      requires !HasSection(section)
      modifies this
      ensures State() == old(State()).AddSection(section)
    {
      names := names + [section];
      table := table[section := map[]];
    }

    /** `set(section, option, value)`; nothing changes when it raises. */
    method Set(section: string, option: string, value: string) returns (r: Result<(), ConfigError>)
      modifies this
      ensures old(State()).Set(section, option, value).Ok? ==>
        r.Ok? && State() == old(State()).Set(section, option, value).value
      ensures old(State()).Set(section, option, value).Err? ==>
        r == Err(old(State()).Set(section, option, value).error) && State() == old(State())
    {
      if section !in table {
        return Err(NoSectionError(section));
      }
      table := table[section := table[section][option := value]];
      return Ok(());
    }
  }
}
