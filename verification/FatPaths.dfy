/**
 FatFs path construction (rp_fs.cpp): an operation path plus a device number becomes a
 drive-qualified FatFs path, or is refused.
 */
module FatPaths {
  import opened Words
  import opened PathModel
  import opened PathEngine

  const FAT_PATH: nat := 96       // every caller passes a 96-byte buffer

  /** rp_fs_is_valid_83_path: like the path engine's rule, without a check of the drive number. */
  ghost predicate FatPathValid(path: string) {
    LogicalValid(Logical(path))
  }

  function Logical(path: string): string {
    if HasDrive(path) then path[3..] else path
  }

  predicate IsRoot(logical: string) {
    logical == "" || logical == "/"
  }

  /** The qualified text; an already qualified path is kept as it is written. */
  function FatText(device: u8, path: string): string
    requires device <= 9
  {
    if HasDrive(path) then path
    else Qualified(device, if path != "" && path[0] == '/' then path[1..] else path)
  }

  ghost predicate Acceptable(device: u8, path: string, outLen: nat) {
    && DeviceValid(device) && outLen >= 4 && FatPathValid(path)
    && (HasDrive(path) ==> DriveOf(path) == device)
    && |FatText(device, path)| < outLen
  }

  method FatPathValid83(path: string) returns (valid: bool)
    ensures valid <==> FatPathValid(path)
  {
    var name := if HasDrive(path) then path[3..] else path;
    if |name| == 0 {
      return true;
    }
    if name[0] == '/' {
      name := name[1..];
      if |name| == 0 {
        return true;
      }
    }
    valid := ComponentsValid(name);
  }

  /** rp_fs_make_path, for operations on files: roots are refused. */
  method MakePath(device: u8, filename: string, outLen: nat) returns (out: Option<string>)
    ensures out == if Acceptable(device, filename, outLen) && !IsRoot(Logical(filename))
                   then Some(FatText(device, filename)) else None
  {
    if |filename| == 0 || outLen == 0 {
      return None;
    }
    if !DeviceValid(device) || outLen < 4 {
      return None;
    }
    var valid := FatPathValid83(filename);
    if !valid {
      return None;
    }
    var logical := filename;
    if HasDrive(filename) {
      if DriveOf(filename) != device {
        return None;
      }
      logical := filename[3..];
    }
    if |logical| == 0 || (logical[0] == '/' && |logical| == 1) {
      return None;
    }
    if HasDrive(filename) {
      return if |filename| >= outLen then None else Some(filename);
    }
    if logical[0] == '/' {
      logical := logical[1..];
    }
    if 3 + |logical| >= outLen {
      return None;
    }
    return Some(Qualified(device, logical));
  }

  /** rp_fs_make_dir_path, for operations on directories: roots are allowed. */
  method MakeDirPath(device: u8, dirname: string, outLen: nat) returns (out: Option<string>)
    ensures out == if Acceptable(device, dirname, outLen) then Some(FatText(device, dirname)) else None
  {
    if outLen == 0 || !DeviceValid(device) || outLen < 4 {
      return None;
    }
    var valid := FatPathValid83(dirname);
    if !valid {
      return None;
    }
    if HasDrive(dirname) {
      if DriveOf(dirname) != device || |dirname| >= outLen {
        return None;
      }
      return Some(dirname);
    }
    if |dirname| == 0 || (dirname[0] == '/' && |dirname| == 1) {
      return Some(Qualified(device, ""));
    }
    var source := if dirname[0] == '/' then dirname[1..] else dirname;
    if 3 + |source| >= outLen {
      return None;
    }
    return Some(Qualified(device, source));
  }

  /** mkdir and rmdir refuse drive roots. */
  predicate IsRootDirPath(path: string) {
    HasDrive(path) && |path| == 3
  }

  /**
   Resolved paths flow through: the directory form of every resolved path is accepted as "N:/"
   plus its components, the file form is accepted exactly when it is not the root, and the root
   test recognises exactly the root.
   */
  lemma ResolvedFlowsThrough(pid: u8, cwd: Cwd, fallback: u8, input: string)
    requires GoodCwd(cwd) && Resolve(pid, cwd, fallback, input).Resolved?
    ensures var r := Resolve(pid, cwd, fallback, input);
            && Acceptable(r.device, r.path, FAT_PATH)
            && FatText(r.device, r.path) == Qualified(r.device, if r.path == "/" then "" else r.path)
            && (IsRoot(Logical(r.path)) <==> r.path == "/")
            && (IsRootDirPath(FatText(r.device, r.path)) <==> r.path == "/")
            && Resolve(pid, cwd, fallback, FatText(r.device, r.path)) == r
  {
    var r := Resolve(pid, cwd, fallback, input);
    ResolvedIsStorable(pid, cwd, fallback, input);
    var st := ResolvedIsCanonical(pid, cwd, fallback, input);
    StackOfJoin(st);
    QualifiedRoundTrip(pid, cwd, fallback, input, pid, cwd, fallback);
    if st == [] {
      assert Walk([], [""]) == Walk([], []);
    } else {
      CanonicalHasNoSlash(st);
      JoinNotEmpty(st);
      assert r.path[0] == st[0][0] && st[0][0] in st[0];
    }
  }
}
