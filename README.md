# ceph-deploy remote helpers and RGW configuration, in Dafny

This project models two parts of ceph-deploy, the tool that installs and
configures Ceph clusters over SSH, and proves properties of the model.

The first part is the module of helpers the tool runs on each remote host
(`ceph_deploy/hosts/remotes.py`):
- reading and patching shell-style sysconfig files (`sysconfig_read`,
  `sysconfig_write`);
- detecting the platform (`platform_information`), including the Debian
  codename it derives when the host reports none;
- the apt source line and the apt pinning stanza it writes
  (`write_sources_list`, `set_apt_priority`);
- giving yum repository sections a priority (`set_repo_priority`) and
  tidying the saved file (`remove_whitespace_from_assignments`);
- storing the cluster configuration (`write_conf`);
- the line-by-line grep (`object_grep`) and the executable lookup
  (`which`).

The second part is the configuration side of the RGW (RADOS gateway)
subcommand (`ceph_deploy/rgw.py`):
- parsing `HOST[:NAME]` arguments (`colon_separated`);
- adding each gateway's `client.rgw.*` section to the cluster
  configuration, and the guard that refuses to save a changed
  configuration without `--overwrite-conf` (`rgw_create`);
- listing the configured gateways (`rgw_list`).

How things are modelled:
- A file is its contents, a `string`.
- Python's line iteration is `TextFile.Lines`: the text is cut after each
  `'\n'`, and the last line may lack one.
- `str.strip` uses Python 2's whitespace set: space, tab, `\n`, `\r`,
  `\x0b` and `\x0c`.
- A ConfigParser object is `IniConfig.Config`, a class whose methods
  update its section names and option table in place. Its state as a
  value is `IniConfig.Ini`.
- Each loop of the source is a `method` whose loop is proved against a
  specification function. The properties are proved as lemmas about that
  function.

Two behaviours of `set_repo_priority` are worth spelling out:
- When neither the section nor its lower-case name exists, the second
  `set` (remotes.py:80) is outside the `try`, so NoSectionError
  propagates. The model returns it as `Err`.
- The tidying pass strips every line, comments and lines without '='
  included, and ends each with '\n' (remotes.py:92-98).

Modules, one per file:

- `wrappers.dfy`: `Option` and `Result`.
- `pystr.dfy`: the Python string operations the helpers use: `strip` and
  its variants, `split`, `join`, `count`, `find`, `in`, `startswith`,
  `lower`.
- `textfile.dfy`: line iteration over file contents.
- `paths.dfy`: `os.path.join` with one component.
- `sysconfig.dfy`: `sysconfig_read` and `sysconfig_write`.
- `platform.dfy`: `platform_information`.
- `repo_files.dfy`: `write_sources_list` and `set_apt_priority`.
- `repo_priority.dfy`: `set_repo_priority` and
  `remove_whitespace_from_assignments`.
- `conf_writer.dfy`: `write_conf`, as written and as corrected.
- `search.dfy`: `object_grep` and `which`.
- `inifile.dfy`: the ConfigParser operations the code calls.
- `rgw.dfy`: `colon_separated`, the configuration part of `rgw_create`,
  and `rgw_list`.

## Model

| member | source | states |
|---|---|---|
| Sysconfig.LineValue | ceph_deploy/hosts/remotes.py:333-346 | What one line gives for a key: nothing for a blank line, a comment, a line without '=' or another key's assignment; otherwise the text after the first '=' with surrounding '"' stripped. |
| Sysconfig.Read | ceph_deploy/hosts/remotes.py:330-347 | The value of the first line that gives one, or the default. |
| Sysconfig.Write | ceph_deploy/hosts/remotes.py:349-375 | Append the marked assignment when the key is unset; keep the file when the value is already there; otherwise rewrite the lines. |
| Sysconfig.AssignedValue | ceph_deploy/hosts/remotes.py:333-346 | For one line: a blank line, a comment, a line without '=' and another key's assignment give nothing. Otherwise the value is the text after the first '=', with surrounding '"' stripped (`LineValue`). |
| Sysconfig.SysconfigRead | ceph_deploy/hosts/remotes.py:330-347 | Scans the lines in order. The first line that assigns the key gives the value; if no line does, the default is returned (`Read`). |
| Sysconfig.SysconfigWrite | ceph_deploy/hosts/remotes.py:349-375 | The new contents: the marked assignment appended when the key is unset; the file unchanged when it already holds the value; otherwise the rewritten file (`Write`). |
| Sysconfig.IsSuperseded | ceph_deploy/hosts/remotes.py:361-374 | The write pass comments out exactly the lines that the read pass would take a value from, after dropping a trailing '\n'. |
| Sysconfig.WriteBack | ceph_deploy/hosts/remotes.py:357-375 | Every line is written back in order. Each assignment to the key is commented out and followed by the marker and the new assignment. |
| Sysconfig.FirstValueIsFirstMatch | ceph_deploy/hosts/remotes.py:332-347 | The read finds nothing exactly when no line gives a value. Otherwise the value comes from a line with no value-giving line before it. |
| Sysconfig.SupersedesIffAssigns | ceph_deploy/hosts/remotes.py:333-342 | The write pass and the read pass agree on which lines assign the key. |
| Sysconfig.AssignsOneKey | ceph_deploy/hosts/remotes.py:338-342 | A line assigns at most one key. |
| Sysconfig.CommentValue | ceph_deploy/hosts/remotes.py:336-337 | A line starting with '#' assigns nothing. |
| Sysconfig.LineValueAppendNewline | ceph_deploy/hosts/remotes.py:333 | A trailing '\n' does not change what a line assigns. |
| Sysconfig.ReadAssignmentLine | ceph_deploy/hosts/remotes.py:351 | The written line `key="value"` reads back as the value for that key, and as nothing for any other key. |
| Sysconfig.ReadAppended | ceph_deploy/hosts/remotes.py:351-354 | After the addition is appended, an earlier assignment of a key still wins; otherwise the key reads as the appended value. |
| Sysconfig.ReadRewritten | ceph_deploy/hosts/remotes.py:357-375 | After the rewriting pass, the key reads as the new value wherever it was assigned before. Every other key reads as it did. |
| Sysconfig.WriteThenRead | ceph_deploy/hosts/remotes.py:330-375 | After a write of (k, v), a read of k gives v, and every other key reads as before. |
| Sysconfig.WriteIdempotent | ceph_deploy/hosts/remotes.py:349-356 | A second identical write leaves the file as the first one left it. |
| Platform.PlatformInformation | ceph_deploy/hosts/remotes.py:12-38 | Derive a codename only when none came back and the distribution mentions debian, then right-strip all three fields; the unpacking ValueError is an `Err`. |
| Platform.DebianDerived | ceph_deploy/hosts/remotes.py:16-33 | The known codename of the major version; failing that, for a release with a '/', "sid" or the major part, and the ValueError when the split does not give two parts. |
| Platform.DebianCodename | ceph_deploy/hosts/remotes.py:17-23 | A codename is known exactly for major versions 8, 7 and 6; any other gives "". |
| Platform.PassThrough | ceph_deploy/hosts/remotes.py:16-38 | A reported codename, or a distribution that is not Debian, is returned unchanged, with every field right-stripped. |
| Platform.MajorVersionOf | ceph_deploy/hosts/remotes.py:22 | The major version is the text before the first '.'. |
| Platform.KnownRelease | ceph_deploy/hosts/remotes.py:16-23 | A Debian "8…", "7…" or "6…" release with no codename gets jessie, wheezy or squeeze. |
| Platform.SidRelease | ceph_deploy/hosts/remotes.py:27-32 | An unknown Debian release "major/minor" gets "sid" when minor is "sid", and major otherwise. |
| Platform.FailsOnlyOnSlashes | ceph_deploy/hosts/remotes.py:15-33 | Fails (the unpacking ValueError) exactly when a codename must be derived, the major version is unknown, and the release holds two or more '/'. |
| Platform.ResultStripped | ceph_deploy/hosts/remotes.py:34-38 | No returned field ends in whitespace. |
| PosixPath.JoinRelative | ceph_deploy/hosts/remotes.py:48 | A relative component is placed inside the directory, after one '/'. |
| PosixPath.JoinAbsolute | ceph_deploy/hosts/remotes.py:275 | An absolute component replaces the directory. |
| RepoFiles.SourcesListEntry | ceph_deploy/hosts/remotes.py:50-53 | The line `deb {url} {codename} main` ending in '\n'. |
| RepoFiles.AptPreferences | ceph_deploy/hosts/remotes.py:63-64 | The pinning stanza for the origin `fqdn`. |
| RepoFiles.DefaultSourcesListPath | ceph_deploy/hosts/remotes.py:46-48 | With the default file name, the entry goes to /etc/apt/sources.list.d/ceph.list. |
| RepoFiles.SourcesListInDir | ceph_deploy/hosts/remotes.py:46-48 | A plain file name lands in /etc/apt/sources.list.d. |
| RepoFiles.SourcesListEntryFields | ceph_deploy/hosts/remotes.py:50-53 | For a url and a codename without spaces or line breaks, the entry is one line. Its space-separated fields are deb, the url, the codename and main. |
| RepoFiles.OneLine | ceph_deploy/hosts/remotes.py:50 | Text without '\n', once terminated, reads back as that one line. |
| RepoFiles.AptPreferencesLines | ceph_deploy/hosts/remotes.py:62-66 | For an origin without line breaks, the pinning file is exactly three lines: "Package: *", "Pin: origin <fqdn>" and "Pin-Priority: 999". |
| RepoFiles.FixedLines | ceph_deploy/hosts/remotes.py:63 | The fixed lines of the stanza are single terminated lines. |
| RepoPriority.SetPriorities | ceph_deploy/hosts/remotes.py:73-80 | The requests in order, each a `set` with the lower-case retry; the first error ends the loop. |
| RepoPriority.NormaliseLine | ceph_deploy/hosts/remotes.py:92-98 | The stripped line; an assignment split at its first '=' with both sides stripped; then '\n'. |
| RepoPriority.SetRepoPriority | ceph_deploy/hosts/remotes.py:69-80 | Each requested section gets priority, in order, falling back to the lower-case name. The loop stops with the first NoSectionError (`SetPriorities`). |
| RepoPriority.ErrorPersists | ceph_deploy/hosts/remotes.py:73-80 | An error on a prefix of the sections is the error of the whole loop. |
| RepoPriority.SetOneAt | ceph_deploy/hosts/remotes.py:74-80 | One request succeeds exactly when the section or its lower-case form exists. It fails with NoSectionError for the lower-case name. It sets only priority in the target section. |
| RepoPriority.SetPrioritiesOk | ceph_deploy/hosts/remotes.py:73-80 | The loop succeeds exactly when every requested section resolves. It adds no section. |
| RepoPriority.SetPrioritiesValues | ceph_deploy/hosts/remotes.py:73-80 | On success, the sections are unchanged and every target section has the priority. Every other option keeps its value. |
| RepoPriority.SetPrioritiesError | ceph_deploy/hosts/remotes.py:76-80 | The first request that does not resolve ends the loop with NoSectionError naming its lower-case form. |
| RepoPriority.NormaliseOne | ceph_deploy/hosts/remotes.py:92-98 | One line is stripped. An assignment (not a comment, holding '=') is split at its first '=' and both sides are stripped. Then '\n' is added (`NormaliseLine`). |
| RepoPriority.RemoveWhitespaceFromAssignments | ceph_deploy/hosts/remotes.py:87-98 | The written text is each line read, normalised, in order (`Normalise`). |
| RepoPriority.StripLineNoNewline | ceph_deploy/hosts/remotes.py:92 | A line read from a file holds no line break once stripped. |
| RepoPriority.AssignmentParts | ceph_deploy/hosts/remotes.py:94-96 | The split gives the text before and after the first '='. The stripped left side holds no '='. The rewritten assignment has no surrounding whitespace. |
| RepoPriority.SplitOnceJoin | ceph_deploy/hosts/remotes.py:94 | Splitting once at '=' recovers both sides of `left=right` when left holds no '='. |
| RepoPriority.NormaliseJoined | ceph_deploy/hosts/remotes.py:93-96 | A rewritten assignment is rewritten to itself. |
| RepoPriority.NormaliseAssignmentAgain | ceph_deploy/hosts/remotes.py:93-96 | Normalising an assignment line a second time leaves it as it is. |
| RepoPriority.NormaliseLineIdempotent | ceph_deploy/hosts/remotes.py:91-98 | Normalising any line twice is the same as normalising it once. |
| RepoPriority.NormaliseLineIsLine | ceph_deploy/hosts/remotes.py:96-98 | Each line read is written as exactly one line ending in '\n'. |
| RepoPriority.NormalisedLines | ceph_deploy/hosts/remotes.py:91 | One output line per input line. |
| RepoPriority.NormaliseConcat | ceph_deploy/hosts/remotes.py:91-98 | The written text is the normalised lines one after another. |
| RepoPriority.NormalisedFileLines | ceph_deploy/hosts/remotes.py:89-98 | Reading the written file back gives the normalised lines, one per line read, each ending in '\n'. |
| RepoPriority.NormaliseNormalised | ceph_deploy/hosts/remotes.py:91-98 | Normalising already normalised lines gives the same text. |
| RepoPriority.RemoveWhitespaceIdempotent | ceph_deploy/hosts/remotes.py:87-100 | Running the pass on the file it wrote leaves the file unchanged. |
| ConfWriter.WriteConf | ceph_deploy/hosts/remotes.py:103-125 | As written, the call succeeds exactly when /etc/ceph exists and any existing configuration equals conf or overwrite is set. |
| ConfWriter.WriteConfChecked | ceph_deploy/hosts/remotes.py:103-125 | Corrected, the call succeeds under the same condition. |
| ConfWriter.MissingDirUnreachable | ceph_deploy/hosts/remotes.py:106-125 | As written, the "/etc/ceph/ does not exist" error is never raised. |
| ConfWriter.TempFileLeft | ceph_deploy/hosts/remotes.py:106-122 | As written, a new configuration or a refused overwrite leaves the empty temporary file in /etc/ceph. |
| ConfWriter.CheckedReportsMissingDir | ceph_deploy/hosts/remotes.py:123-125 | Corrected, a missing /etc/ceph raises the function's own message and changes nothing. |
| ConfWriter.CheckedTouchesOnlyConf | ceph_deploy/hosts/remotes.py:103-125 | Corrected, a call either raises and changes nothing, or stores conf at the path and changes nothing else. |
| ConfWriter.WrittenAgreesWhenSucceeding | ceph_deploy/hosts/remotes.py:109-122 | When both succeed, they agree apart from the temporary file. The path holds conf, and other existing files are unchanged. |
| ConfWriter.ConflictKeepsFile | ceph_deploy/hosts/remotes.py:109-116 | A different existing configuration is kept, with the RuntimeError naming the path, unless overwrite is set; under overwrite it is replaced. |
| Search.ObjectGrep | ceph_deploy/hosts/remotes.py:224-228 | True exactly when some line of the file contains the term. |
| Search.LineInText | ceph_deploy/hosts/remotes.py:225 | Each line sits in the text after the lines before it. |
| Search.GrepFindsInContent | ceph_deploy/hosts/remotes.py:224-228 | What the grep finds occurs in the file's contents. |
| Search.FoundInConcat | ceph_deploy/hosts/remotes.py:225-227 | A term inside one line is inside the whole text. |
| Search.OccursInMiddle | ceph_deploy/hosts/remotes.py:226 | An occurrence inside a line keeps its place, shifted, in the text around it. |
| Search.GrepEmptyTerm | ceph_deploy/hosts/remotes.py:224-228 | The empty term is found exactly when the file is not empty. |
| Search.Candidates | ceph_deploy/hosts/remotes.py:265-275 | One candidate path per location, in the fixed order. |
| Search.FirstExisting | ceph_deploy/hosts/remotes.py:274-277 | The first path that exists, or None. |
| Search.Which | ceph_deploy/hosts/remotes.py:263-277 | Returns the first candidate that exists, or None (`FirstExisting`). |
| Search.FirstExistingIsFirst | ceph_deploy/hosts/remotes.py:274-277 | None exactly when no candidate exists. Otherwise the result exists and no earlier candidate does. |
| Search.WhichByName | ceph_deploy/hosts/remotes.py:274-277 | A found executable given by name is location/name for one of the six locations. |
| Search.WhichAbsolute | ceph_deploy/hosts/remotes.py:275-277 | An absolute path is returned exactly when it exists. |
| IniConfig.Ini.AddSection | ceph_deploy/rgw.py:158-159 | A new, empty section, placed after the others. |
| IniConfig.Ini.Set | ceph_deploy/hosts/remotes.py:75-80 | Raises NoSectionError naming the section exactly when the section is missing. |
| IniConfig.Ini.SafeGet | ceph_deploy/rgw.py:236 | A value exactly when the section holds the option. |
| IniConfig.AddSectionWf | ceph_deploy/rgw.py:158-159 | Adding a missing section keeps every section named once. |
| IniConfig.SetWf | ceph_deploy/rgw.py:162 | Setting an option keeps the sections as they are. |
| IniConfig.SetOnly | ceph_deploy/rgw.py:162 | `set` changes only the option it names. |
| IniConfig.Config.constructor | ceph_deploy/rgw.py:141 | A parser object holding the configuration that was read. |
| IniConfig.Config.Sections | ceph_deploy/rgw.py:233 | The section names, in order. |
| IniConfig.Config.HasSection | ceph_deploy/rgw.py:158 | Whether the section is present. |
| IniConfig.Config.HasOption | ceph_deploy/rgw.py:161 | Whether the section is present and holds the option. |
| IniConfig.Config.SafeGet | ceph_deploy/rgw.py:236 | The option's value, or None when the section or the option is missing. |
| IniConfig.Config.AddSection | ceph_deploy/rgw.py:159 | The object's new state is the old one with the new section. |
| IniConfig.Config.Set | ceph_deploy/hosts/remotes.py:75 | The new state is `set` applied to the old one; on NoSectionError nothing changes. |
| Rgw.ColonSeparated | ceph_deploy/rgw.py:248-254 | With exactly one ':', the host before it and "rgw." plus the id after it; otherwise the whole argument as host and as id. |
| Rgw.ColonSeparatedName | ceph_deploy/rgw.py:253 | The gateway name always starts with "rgw.". |
| Rgw.ColonSeparatedSplit | ceph_deploy/rgw.py:251-252 | With exactly one ':', the host and the id join back to the argument, and neither holds ':'. |
| Rgw.ColonSeparatedWhole | ceph_deploy/rgw.py:249-253 | Otherwise the whole argument is both the host and the id. |
| Rgw.ColonSeparatedOfPair | ceph_deploy/rgw.py:248-254 | Parsing "host:id" gives back the host and "rgw.id". |
| Rgw.FrontendsOnPort | ceph_deploy/rgw.py:157-171 | The frontend built from the port is "civetweb port=7480". |
| Rgw.ConfigureAll | ceph_deploy/rgw.py:155-172 | The pass over each gateway, in order. |
| Rgw.Changed | ceph_deploy/rgw.py:154-172 | The flag: set when some pass found its section or an option missing. |
| Rgw.SaveDecision | ceph_deploy/rgw.py:174-180 | Nothing saved when unchanged; refused with the message naming the file when changed without overwrite; saved otherwise. |
| Rgw.AddIfAbsent | ceph_deploy/rgw.py:161-172 | The section is still present after an option is added. |
| Rgw.Configure | ceph_deploy/rgw.py:156-159 | After one pass, the gateway's section exists. |
| Rgw.ConfigureGateway | ceph_deploy/rgw.py:155-172 | The new state is one pass over the gateway (`Configure`). The flag is set exactly when the gateway lacked its section or an option. |
| Rgw.RgwCreateConfig | ceph_deploy/rgw.py:154-180 | The new state is every gateway configured in order (`ConfigureAll`). The result is the save decision on the loop's flag and the file path. |
| Rgw.Offer | ceph_deploy/rgw.py:161-172 | A gateway offers a value exactly for the three options of its own section. |
| Rgw.AddSectionAt | ceph_deploy/rgw.py:158-159 | Adding a section changes no option. |
| Rgw.AddIfAbsentAt | ceph_deploy/rgw.py:161-163 | A present option keeps its value; a missing one gets the value given. |
| Rgw.ConfigureAt | ceph_deploy/rgw.py:156-172 | One pass keeps every present option and adds only the gateway's missing ones, with host, host and "civetweb port=7480". |
| Rgw.ConfigureSections | ceph_deploy/rgw.py:158-159 | A pass can add only the gateway's section, and adds it last. |
| Rgw.ConfigureAllValues | ceph_deploy/rgw.py:155-172 | After the loop, each option keeps its old value if it had one; otherwise it has the value of the first gateway with that section. |
| Rgw.ConfigureAllSections | ceph_deploy/rgw.py:155-159 | After the loop, the old sections come first, in their order. The section set is the old sections plus the gateways' sections. |
| Rgw.FirstDefaultIsFirst | ceph_deploy/rgw.py:155-172 | The value a section gets comes from the first gateway that names it. |
| Rgw.FirstDefaultNone | ceph_deploy/rgw.py:155-172 | No value is offered for a section no gateway names. |
| Rgw.ConfigureAllWf | ceph_deploy/rgw.py:155-172 | The loop keeps every section named once. |
| Rgw.AddIfAbsentWf | ceph_deploy/rgw.py:161-172 | Adding an option keeps every section named once. |
| Rgw.EntitiesIn | ceph_deploy/rgw.py:155-156 | A section is a gateway section exactly when some gateway names it. |
| Rgw.FirstDefaultSome | ceph_deploy/rgw.py:155-172 | A value is offered exactly for the three options of a gateway's section. |
| Rgw.OtherSectionsUnchanged | ceph_deploy/rgw.py:155-172 | Sections no gateway names keep their options exactly. |
| Rgw.FirstHostWins | ceph_deploy/rgw.py:161-172 | A gateway's missing host, rgw_dns_name and frontends come from the first gateway naming its section. Present ones are kept. |
| Rgw.ConfigureComplete | ceph_deploy/rgw.py:158-172 | A pass over a complete gateway changes nothing. |
| Rgw.AllComplete | ceph_deploy/rgw.py:154-172 | When every gateway is complete, the loop changes nothing and the flag stays clear. |
| Rgw.CompleteAfter | ceph_deploy/rgw.py:155-172 | A gateway is complete after the earlier passes exactly when an earlier one shared its section or it was complete already. |
| Rgw.ChangedIffMissing | ceph_deploy/rgw.py:154-172 | The flag is set exactly when some gateway lacked an option to begin with. |
| Rgw.MissingSnoc | ceph_deploy/rgw.py:155-172 | Some gateway lacks an option exactly when an earlier one or the last one does. |
| Rgw.SharedSectionMissing | ceph_deploy/rgw.py:156-172 | A gateway lacking an option whose section an earlier gateway shares makes the earlier one lack it too. |
| Rgw.ChangedIffModified | ceph_deploy/rgw.py:154-172 | The flag is set exactly when the loop changed the configuration. |
| Rgw.ModifiedWhenMissing | ceph_deploy/rgw.py:158-172 | A gateway lacking an option makes the loop change the configuration. |
| Rgw.ConfigureIdempotent | ceph_deploy/rgw.py:154-180 | A second run over the same gateways changes nothing, leaves the flag clear and saves nothing. |
| Rgw.GuardRefuses | ceph_deploy/rgw.py:175-180 | Refused exactly when the configuration changed and --overwrite-conf is absent. The message names the file. Saved exactly when changed and overwrite is set. |
| Rgw.GatewaySections | ceph_deploy/rgw.py:233-235 | Only sections starting with "client.rgw" are reported. |
| Rgw.RgwList | ceph_deploy/rgw.py:231-238 | One line "host:name" per gateway section, in section order (`Listed`). |
| Rgw.GatewaySectionsIn | ceph_deploy/rgw.py:233-235 | A section is reported exactly when it exists and starts with "client.rgw". |
| Rgw.ListedEntity | ceph_deploy/rgw.py:237 | The name printed is the section name without "client.", and starts with "rgw". |
| Rgw.CreatedAreListed | ceph_deploy/rgw.py:233-238 | After creation, every gateway has a host and its "host:rgw.id" line is in the listing. |
| Rgw.ConfiguredSection | ceph_deploy/rgw.py:155-163 | After the loop, each gateway's section is present and has a host. |
| Rgw.GatewayEntity | ceph_deploy/rgw.py:234-237 | The section of gateway "rgw.id" is a gateway section, and its listed name is the gateway's name. |
| Rgw.ListedMember | ceph_deploy/rgw.py:233-238 | Each gateway section has its line in the listing. |
| Rgw.Listed | ceph_deploy/rgw.py:233-238 | One line per gateway section. |

## Left out

- File access, the remote-execution channel (remoto) and process handling. A file is its contents. The set of existing paths and the name of the temporary file are parameters. The channel loop at the end of remotes.py is not modelled.
- Output: the log messages, the `print` calls in `sysconfig_read`, and `rgw_list` printing. `rgw_list` returns its lines instead.
- ConfigParser's reader and writer, the DEFAULT section and the lower-casing of option names (`optionxform`). The model keeps the state the parser holds: sections in order, each with its options. `remove_whitespace_from_assignments` is modelled on the text of any file, whatever the writer produced.
- `conf.ceph.load` and the configuration class it returns are not part of this model. `safe_get` is taken to give None for a missing section or option, and the loaded configuration is a parameter.
- The rest of `rgw_create`: the bootstrap key, the connections to each host, the keyring, `create_rgw`, and the error count. Only the configuration update (lines 154-172) and the save guard (174-180) are modelled. Saving is modelled as the decision, not the writing.
- In `rgw_create`, `value` (`host:port`) is computed and never used; `rgw_dns_name` gets the bare host name, and the model follows the code.
- `os.chmod` and file modes in `write_conf`, `write_keyring` and every other helper of remotes.py that is not named above (`machine_type`, `write_yum_repo`, `write_file`, `grep`'s file check, `shortname`, directory and ownership helpers).
- IniConfig.Ini.AddSection: requires the section to be missing. `rgw_create` only calls `add_section` after `has_section` is false, so DuplicateSectionError is never raised there and is not modelled.
- Sysconfig.ReadAssignmentLine, Sysconfig.WriteThenRead and Sysconfig.WriteIdempotent: stated for keys without '=', '\n', a leading '#' or surrounding whitespace, and for values without '\n' or a leading or trailing '"'. For other keys and values, the written line does not read back as written.
- RepoPriority.SetRepoPriority: the NoSectionError that propagates from line 80 is returned as `Err`. The file is not written in that case, as in the code, where the exception leaves before line 82.
- Platform.PlatformInformation: `platform.linux_distribution` is the caller's input; `str()` of its fields is the identity on strings.
- `lower()` is ASCII-only and `strip()` uses Python 2's whitespace set; non-ASCII text is not modelled.

## Findings

| source | as written | input that shows it | evidently intended | confidence | as-written member | corrected member |
|---|---|---|---|---|---|---|
| ceph_deploy/hosts/remotes.py:106-125 | The temporary file is created in /etc/ceph before anything is checked, so a missing /etc/ceph raises OSError from the temporary-file module. | cluster "ceph" on a host without /etc/ceph: OSError, never the "/etc/ceph/ does not exist" RuntimeError | a missing directory is reported with the function's own RuntimeError | not executed | ConfWriter.MissingDirUnreachable | ConfWriter.CheckedReportsMissingDir |
| ceph_deploy/hosts/remotes.py:106-122 | The temporary file is created with delete=False and is only moved away when an existing configuration is replaced. | cluster "ceph" on a host with /etc/ceph but no ceph.conf: ceph.conf is written and an empty temporary file stays in /etc/ceph | only /etc/ceph/{cluster}.conf is created or changed | not executed | ConfWriter.TempFileLeft | ConfWriter.CheckedTouchesOnlyConf |
