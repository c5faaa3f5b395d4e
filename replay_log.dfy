/**
 * The replay log of `replay_log.py`: named text logs in one folder, each only
 * ever appended to. The file system is a set of directories and a map from
 * path to contents.
 */
module Replay {
  import opened Base

  /** A log name as callers pass it: a string, or a bare serial number. */
  datatype LogName = Text(name: string) | Serial(n: int)

  /** The folder with exactly one separator after it: a `/` is added only when missing. */
  function Directory(folder: string): (r: string)
    ensures |r| == |folder| + (if EndsWith(folder, "/") then 0 else 1)
    ensures EndsWith(r, "/") && r[..|folder|] == folder
  {
    folder + (if EndsWith(folder, "/") then "" else "/")
  }

  /** The path of the log `name`: `.txt` is added only when the name lacks it. */
  function LogPath(folder: string, name: string): (r: string)
    ensures EndsWith(r, ".txt")
    ensures |Directory(folder)| <= |r| && r[..|Directory(folder)|] == Directory(folder)
    ensures EndsWith(name, ".txt") ==> r == Directory(folder) + name
    ensures !EndsWith(name, ".txt") ==> r == Directory(folder) + name + ".txt"
  {
    var r := Directory(folder) + name + (if EndsWith(name, ".txt") then "" else ".txt");
    assert r[..|Directory(folder)|] == Directory(folder);
    if EndsWith(name, ".txt") then
      assert r[|r| - 4..] == name[|name| - 4..];
      r
    else
      assert r[|r| - 4..] == ".txt";
      r
  }

  /** A name with and without its `.txt` suffix refers to the same log: the suffix is never doubled. */
  lemma SuffixNeverDoubled(folder: string, name: string)
    requires !EndsWith(name, ".txt")
    ensures LogPath(folder, name + ".txt") == LogPath(folder, name)
  {
    var n := name + ".txt";
    assert n[|n| - 4..] == ".txt";
  }

  /** Logs after appending `text` to the log at `path`, created empty when missing. */
  function Appended(files: map<string, string>, path: string, text: string): (r: map<string, string>)
    ensures path in r && r[path] == (if path in files then files[path] else "") + text
    ensures forall q :: q != path ==> (q in r <==> q in files) && (q in files ==> r[q] == files[q])
  {
    files[path := (if path in files then files[path] else "") + text]
  }

  /** The part of the file system the log touches. */
  class FileSystem {
    var dirs: set<string>
    var files: map<string, string>

    constructor (dirs: set<string>, files: map<string, string>)
      ensures this.dirs == dirs && this.files == files
    {
      this.dirs := dirs;
      this.files := files;
    }
  }

  class ReplayLog {
    var folder: string
    var fs: FileSystem

    /** Creates the folder only when it is not already a directory; files are untouched. */
    constructor (folder: string, fs: FileSystem)
      modifies fs`dirs
      ensures this.folder == folder && this.fs == fs
      ensures fs.dirs == old(fs.dirs) + {folder} && fs.files == old(fs.files)
      ensures folder in old(fs.dirs) ==> fs.dirs == old(fs.dirs)
    {
      this.folder := folder;
      this.fs := fs;
      if folder !in fs.dirs {
        fs.dirs := fs.dirs + {folder};
      }
    }

    /**
     * `add_to_log`: appends `text` to the log's file. It never raises: a name that
     * is not a string fails at `endswith`, and an open that fails (`canOpen`,
     * the operating system's answer) is reported and ignored; either way no log changes.
     */
    method AddToLog(logName: LogName, text: string, canOpen: bool)
      modifies fs`files
      ensures logName.Serial? || !canOpen ==> fs.files == old(fs.files)
      ensures logName.Text? && canOpen ==> fs.files == Appended(old(fs.files), LogPath(folder, logName.name), text)
    {
      if logName.Serial? {
        return;
      }
      var path := LogPath(folder, logName.name);
      if !canOpen {
        return;
      }
      fs.files := Appended(fs.files, path, text);
    }
  }
}
