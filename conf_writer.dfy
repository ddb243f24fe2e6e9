/**
  `write_conf`: storing a cluster's configuration as
  /etc/ceph/{cluster}.conf on a host. The host's files are a map from path
  to contents, plus whether the directory /etc/ceph exists; the name the
  temporary-file module picks is a parameter.

  The function as written creates its temporary file in /etc/ceph before
  anything else, so a missing directory raises that module's OSError and
  the function's own "does not exist" error is never reached; and the
  temporary file stays behind unless it was moved onto an existing
  configuration. `WriteConf` models it as written, `WriteConfChecked` as
  evidently intended.
*/
module ConfWriter {
  import opened Wrappers

  /** What is on the host: whether /etc/ceph exists, and the files by path. */
  datatype Disk = Disk(dirExists: bool, files: map<string, string>)

  /** The exceptions the function lets out. */
  datatype Failure =
    | RuntimeError(message: string)
    | OSError(path: string)  // errno 2: no such file or directory

  /** The host after the call, and the exception it raised, if any. */
  datatype Written = Written(disk: Disk, raised: Option<Failure>)

  function ConfPath(cluster: string): string {
    "/etc/ceph/" + cluster + ".conf"
  }

  function ConflictMessage(path: string): string {
    "config file " + path + " exists with different content; use --overwrite-conf to overwrite"
  }

  const MissingDirMessage := "/etc/ceph/ does not exist - could not write config"

  /** The temporary file is a new name in /etc/ceph, different from the configuration's. */
  predicate FreshTemp(disk: Disk, cluster: string, tmpName: string) {
    tmpName !in disk.files && tmpName != ConfPath(cluster)
  }

  /**
    `write_conf` as written: the empty temporary file `tmpName` is created
    first; an existing configuration with other contents is kept unless
    `overwrite` holds, otherwise the temporary file, filled, replaces it; a
    new configuration is written directly.
  */
  function WriteConf(cluster: string, conf: string, overwrite: bool, disk: Disk, tmpName: string): (w: Written)
    requires FreshTemp(disk, cluster, tmpName)
    ensures w.raised.None? <==>
      disk.dirExists && (ConfPath(cluster) in disk.files ==> disk.files[ConfPath(cluster)] == conf || overwrite)
  {
    var path := ConfPath(cluster);
    if !disk.dirExists then
      Written(disk, Some(OSError(tmpName)))
    else
      var withTemp := disk.files[tmpName := ""];
      if path in disk.files then
        if disk.files[path] != conf && !overwrite then
          Written(Disk(true, withTemp), Some(RuntimeError(ConflictMessage(path))))
        else
          Written(Disk(true, (withTemp - {tmpName})[path := conf]), None)
      else
        Written(Disk(true, withTemp[path := conf]), None)
  }

  /**
    `write_conf` as evidently intended: a missing /etc/ceph is reported
    with the function's own message, and nothing but the configuration
    file is ever created or changed.
  */
  function WriteConfChecked(cluster: string, conf: string, overwrite: bool, disk: Disk): (w: Written)
    ensures w.raised.None? <==>
      disk.dirExists && (ConfPath(cluster) in disk.files ==> disk.files[ConfPath(cluster)] == conf || overwrite)
  {
    var path := ConfPath(cluster);
    if !disk.dirExists then
      Written(disk, Some(RuntimeError(MissingDirMessage)))
    else if path in disk.files && disk.files[path] != conf && !overwrite then
      Written(disk, Some(RuntimeError(ConflictMessage(path))))
    else
      Written(Disk(true, disk.files[path := conf]), None)
  }

  /** As written, the missing-directory message can never be raised. */
  lemma MissingDirUnreachable(cluster: string, conf: string, overwrite: bool, disk: Disk, tmpName: string)
    requires FreshTemp(disk, cluster, tmpName)
    ensures WriteConf(cluster, conf, overwrite, disk, tmpName).raised != Some(RuntimeError(MissingDirMessage))
  {
    var path := ConfPath(cluster);
    if disk.dirExists && path in disk.files {
      assert |ConflictMessage(path)| > |MissingDirMessage|;
    }
  }

  /**
    As written, writing a new configuration, or refusing to replace one,
    leaves the empty temporary file in /etc/ceph.
  */
  lemma TempFileLeft(cluster: string, conf: string, overwrite: bool, disk: Disk, tmpName: string)
    requires FreshTemp(disk, cluster, tmpName)
    requires disk.dirExists
    requires ConfPath(cluster) !in disk.files
          || (disk.files[ConfPath(cluster)] != conf && !overwrite)
    ensures var w := WriteConf(cluster, conf, overwrite, disk, tmpName);
      tmpName in w.disk.files && w.disk.files[tmpName] == ""
  {
  }

  /** Corrected, a missing /etc/ceph is reported with its own message and changes nothing. */
  lemma CheckedReportsMissingDir(cluster: string, conf: string, overwrite: bool, disk: Disk)
    requires !disk.dirExists
    ensures WriteConfChecked(cluster, conf, overwrite, disk) == Written(disk, Some(RuntimeError(MissingDirMessage)))
  {
  }

  /**
    Corrected, a call either changes nothing and raises, or stores `conf`
    at the configuration path and changes nothing else.
  */
  lemma CheckedTouchesOnlyConf(cluster: string, conf: string, overwrite: bool, disk: Disk)
    ensures var w := WriteConfChecked(cluster, conf, overwrite, disk);
      if w.raised.Some? then w.disk == disk
      else w.disk == Disk(true, disk.files[ConfPath(cluster) := conf])
  {
  }

  /**
    Both versions agree on every call that succeeds, apart from the
    temporary file the written one leaves: the configuration path then
    holds `conf` and every other existing file is unchanged.
  */
  lemma WrittenAgreesWhenSucceeding(cluster: string, conf: string, overwrite: bool, disk: Disk, tmpName: string)
    requires FreshTemp(disk, cluster, tmpName)
    requires WriteConf(cluster, conf, overwrite, disk, tmpName).raised.None?
    ensures var w := WriteConf(cluster, conf, overwrite, disk, tmpName).disk;
      var c := WriteConfChecked(cluster, conf, overwrite, disk).disk;
      && w.files[ConfPath(cluster)] == conf
      && (forall p :: p in disk.files && p != ConfPath(cluster) ==> p in w.files && w.files[p] == disk.files[p])
      && w.files - {tmpName} == c.files
  {
    var path := ConfPath(cluster);
    var w := WriteConf(cluster, conf, overwrite, disk, tmpName).disk;
    var c := WriteConfChecked(cluster, conf, overwrite, disk).disk;
    assert w.files - {tmpName} == c.files;
  }

  /** As written, a configuration with other contents is only replaced under `overwrite`. */
  lemma ConflictKeepsFile(cluster: string, conf: string, disk: Disk, tmpName: string)
    requires FreshTemp(disk, cluster, tmpName)
    requires disk.dirExists
    requires ConfPath(cluster) in disk.files && disk.files[ConfPath(cluster)] != conf
    ensures var w := WriteConf(cluster, conf, false, disk, tmpName);
      && w.raised == Some(RuntimeError(ConflictMessage(ConfPath(cluster))))
      && w.disk.files[ConfPath(cluster)] == disk.files[ConfPath(cluster)]
    ensures WriteConf(cluster, conf, true, disk, tmpName).disk.files[ConfPath(cluster)] == conf
  {
  }
}
