/**
 The path engine as the firmware runs it (rp_fs_path.cpp): a NUL-terminated 64-byte buffer is
 popped and extended in place, and the CWD table is updated slot by slot.
 */
module PathEngine {
  import opened Words
  import opened Names83
  import opened PathModel

  /** A character buffer holding a NUL-terminated text. */
  ghost predicate Holds(buffer: array<char>, text: string)
    reads buffer
  {
    |text| < buffer.Length && buffer[..|text|] == text && buffer[|text|] == '\0' && '\0' !in text
  }

  lemma HeldChars(buffer: array<char>, text: string)
    requires Holds(buffer, text)
    ensures forall i | 0 <= i < |text| :: buffer[i] == text[i] && buffer[i] != '\0'
  {
    assert forall i | 0 <= i < |text| :: buffer[i] == buffer[..|text|][i] && text[i] in text;
  }

  method StrLen(buffer: array<char>, ghost text: string) returns (n: nat)
    requires Holds(buffer, text)
    ensures n == |text|
  {
    HeldChars(buffer, text);
    n := 0;
    while buffer[n] != '\0'
      invariant n <= |text|
      decreases |text| - n
    {
      n := n + 1;
    }
  }

  /** strrchr(path, '/'): the position of the last slash, or -1. */
  method LastSlash(buffer: array<char>, ghost text: string) returns (at: int)
    requires Holds(buffer, text)
    ensures -1 <= at < |text|
    ensures at >= 0 ==> text[at] == '/'
    ensures forall j | at < j < |text| :: text[j] != '/'
  {
    HeldChars(buffer, text);
    at := StrLen(buffer, text);
    at := at - 1;
    while at >= 0 && buffer[at] != '/'
      invariant -1 <= at < |text|
      invariant forall j | at < j < |text| :: text[j] != '/'
    {
      at := at - 1;
    }
  }

  /** In a joined canonical stack the last slash separates the last component. */
  lemma LastSlashOfJoin(st: Stack, at: int)
    requires Canonical(st) && st != []
    requires var t := Join(st);
             && -1 <= at < |t| && (at >= 0 ==> t[at] == '/') && forall j | at < j < |t| :: t[j] != '/'
    ensures if |st| == 1 then at == -1 else at == |Join(Pop(st))|
  {
    var n, t := |st| - 1, Join(st);
    Valid83Shape(st[n]);
    if n > 0 {
      var cut := |Join(Pop(st))|;
      assert t == Join(Pop(st)) + "/" + st[n];
      assert t[cut] == '/';
      assert forall j | cut < j < |t| :: t[j] == st[n][j - cut - 1] && t[j] in st[n];
    } else {
      assert forall j | 0 <= j < |t| :: t[j] in st[0];
    }
  }

  method PopComponent(buffer: array<char>, ghost st: Stack)
    requires Canonical(st) && Holds(buffer, Join(st))
    modifies buffer
    ensures Holds(buffer, Join(Pop(st)))
  {
    StackOfJoin(st);
    HeldChars(buffer, Join(st));
    if buffer[0] == '\0' {
      return;
    }
    var slash := LastSlash(buffer, Join(st));
    assert st != [];
    LastSlashOfJoin(st, slash);
    JoinHasNoNul(Pop(st));
    ghost var popped := Join(Pop(st));
    assert |st| > 1 ==> Join(st)[..|popped|] == popped;
    assert buffer[..|Join(st)|][..|popped|] == buffer[..|popped|];
    if slash < 0 {
      buffer[0] := '\0';
    } else {
      buffer[slash] := '\0';
    }
  }

  method AppendComponent(buffer: array<char>, component: string, ghost st: Stack) returns (ok: bool)
    requires Canonical(st) && Holds(buffer, Join(st)) && Valid83(component)
    modifies buffer
    ensures ok <==> |Join(st + [component])| < buffer.Length
    ensures Holds(buffer, Join(if ok then st + [component] else st))
  {
    hide Valid83;
    ghost var text := Join(st);
    StackOfJoin(st);
    Valid83Shape(component);
    assert (st + [component])[..|st|] == st;
    ghost var longer := if st == [] then component else text + "/" + component;
    assert Join(st + [component]) == longer;
    var currentLen := StrLen(buffer, text);
    var separatorLen := if currentLen == 0 then 0 else 1;
    if currentLen + separatorLen + |component| >= buffer.Length {
      return false;
    }
    var offset := currentLen;
    if separatorLen != 0 {
      buffer[offset] := '/';
      offset := offset + 1;
    }
    assert buffer[..offset] == longer[..offset];
    CopyAt(buffer, offset, component);
    assert longer == longer[..offset] + component;
    return true;
  }

  /** memcpy of a text and its terminating NUL to an offset. */
  method CopyAt(buffer: array<char>, offset: nat, text: string)
    requires offset + |text| < buffer.Length
    modifies buffer
    ensures buffer[..offset + |text|] == old(buffer[..offset]) + text && buffer[offset + |text|] == '\0'
  {
    var i := 0;
    while i < |text|
      invariant 0 <= i <= |text|
      invariant buffer[..offset + i] == old(buffer[..offset]) + text[..i]
    {
      buffer[offset + i] := text[i];
      assert buffer[..offset + i + 1] == buffer[..offset + i] + [text[i]];
      i := i + 1;
    }
    buffer[offset + |text|] := '\0';
    assert text[..|text|] == text;
  }

  // ---------------------------------------------------------------------------
  // Reading components
  // ---------------------------------------------------------------------------

  /** A slash at the cursor contributes nothing to a walk. */
  lemma WalkSkipsSlash(st: Stack, s: string)
    requires s != "" && s[0] == '/'
    ensures Walk(st, Split(s)) == Walk(st, Split(s[1..]))
  {
  }

  lemma SplitAt(s: string, k: nat)
    requires k <= |s| && '/' !in s[..k] && (k < |s| ==> s[k] == '/')
    ensures Split(s) == if k == |s| then [s[..k]] else [s[..k]] + Split(s[k + 1..])
  {
    hide Split;
    SplitPlain(s[..k]);
    if k == |s| {
      assert s[..k] == s;
    } else {
      assert s == s[..k] + "/" + s[k + 1..];
      SplitAppend(s[..k], s[k + 1..]);
    }
  }

  /** What remains after a first component walks like the text from the following slash on. */
  lemma WalkRest(st: Stack, s: string, k: nat)
    requires k <= |s| && '/' !in s[..k] && (k < |s| ==> s[k] == '/')
    ensures Walk(st, Split(s)[1..]) == Walk(st, Split(s[k..]))
  {
    SplitAt(s, k);
    if k == |s| {
      assert s[k..] == "" && Split("") == [""];
      assert Walk(st, [""]) == Walk(st, [""][1..]);
    } else {
      WalkSkipsSlash(st, s[k..]);
      assert s[k..][1..] == s[k + 1..];
    }
  }

  lemma WalkNothing(st: Stack)
    ensures Walk(st, Split("")) == Reached(st)
  {
    assert Walk(st, [""]) == Walk(st, [""][1..]);
  }

  /** One component of a walk. */
  lemma WalkComponent(st: Stack, s: string, k: nat)
    requires 0 < k <= |s| && '/' !in s[..k] && (k < |s| ==> s[k] == '/')
    ensures var c, rest := s[..k], Split(s[k..]);
            Walk(st, Split(s)) ==
              if c == "." then Walk(st, rest)
              else if c == ".." then Walk(Pop(st), rest)
              else if !Valid83(c) then BadName
              else if |Join(st + [c])| >= PATH_MAX then Full
              else Walk(st + [c], rest)
  {
    SplitAt(s, k);
    WalkRest(st, s, k);
    WalkRest(Pop(st), s, k);
    WalkRest(st + [s[..k]], s, k);
  }

  /** Scans from the cursor to the next slash or the end. */
  method ComponentEnd(input: string, cursor: nat) returns (end: nat)
    requires cursor <= |input|
    ensures cursor <= end <= |input|
    ensures '/' !in input[cursor..end] && (end < |input| ==> input[end] == '/')
  {
    end := cursor;
    while end < |input| && input[end] != '/'
      invariant cursor <= end <= |input|
      invariant '/' !in input[cursor..end]
    {
      assert input[cursor..end + 1] == input[cursor..end] + [input[end]];
      end := end + 1;
    }
  }

  /** rp_fs_path_valid_83, for the text after a drive prefix. */
  ghost predicate LogicalValid(logical: string) {
    logical == "" || logical == "/" ||
    Canonical(Split(if logical[0] == '/' then logical[1..] else logical))
  }

  ghost predicate PathValid(path: string) {
    if HasDrive(path) then DeviceValid(DriveOf(path)) && LogicalValid(path[3..]) else LogicalValid(path)
  }

  method PathValid83(path: string) returns (valid: bool)
    ensures valid <==> PathValid(path)
  {
    var logical := path;
    if HasDrive(path) {
      if !DeviceValid(DriveOf(path)) {
        return false;
      }
      logical := path[3..];
    }
    if |logical| == 0 {
      return true;
    }
    if logical[0] == '/' {
      logical := logical[1..];
      if |logical| == 0 {
        return true;
      }
    }
    valid := ComponentsValid(logical);
  }

  /** The component loop of both path validators: a trailing slash is an error too. */
  method ComponentsValid(logical: string) returns (valid: bool)
    requires logical != ""
    ensures valid <==> Canonical(Split(logical))
  {
    hide Valid83, Split;
    var start: nat := 0;
    assert logical[0..] == logical;
    while true
      invariant start < |logical|
      invariant Canonical(Split(logical)) <==> Canonical(Split(logical[start..]))
      decreases |logical| - start
    {
      var end := ComponentEnd(logical, start);
      ghost var rest := logical[start..];
      assert rest[..end - start] == logical[start..end];
      SplitAt(rest, end - start);
      var ok := PathComponentValid(logical[start..end]);
      if !ok {
        assert !Valid83(Split(rest)[0]);
        return false;
      }
      if end == |logical| {
        return true;
      }
      assert rest[end - start + 1..] == logical[end + 1..];
      CanonicalCons(logical[start..end], Split(logical[end + 1..]));
      start := end + 1;
      if start == |logical| {
        EmptyIsInvalid();
        assert logical[start..] == "";
        assert !Valid83(Split("")[0]);
        return false;
      }
    }
  }

  lemma EmptyIsInvalid()
    ensures !Valid83("") && Split("") == [""]
  {
  }

  lemma CanonicalCons(first: string, rest: Stack)
    requires Valid83(first)
    ensures Canonical([first] + rest) <==> Canonical(rest)
  {
    var all := [first] + rest;
    if Canonical(all) {
      assert forall i | 0 <= i < |rest| :: rest[i] == all[i + 1];
    }
  }

  // ---------------------------------------------------------------------------
  // The CWD table and the resolver
  // ---------------------------------------------------------------------------

  class CwdTable {
    const slots: array<Cwd>

    /** Every slot is canonical, on a valid device and shorter than 32, in every reachable state. */
    ghost predicate Valid()
      reads this, slots
    {
      slots.Length == MAX_PROCS && forall p | 0 <= p < MAX_PROCS :: GoodCwd(slots[p])
    }

    /** The statically zeroed table: no slot is initialised. */
    constructor ()
      ensures Valid() && fresh(slots)
      ensures forall p | 0 <= p < MAX_PROCS :: slots[p] == Cwd(false, 0, "")
    {
      slots := new Cwd[MAX_PROCS](_ => Cwd(false, 0, ""));
    }

    method ResetAll()
      requires Valid()
      modifies slots
      ensures Valid() && forall p | 0 <= p < MAX_PROCS :: slots[p] == Cwd(true, 0, "")
    {
      var pid := 0;
      while pid < MAX_PROCS
        invariant 0 <= pid <= MAX_PROCS
        invariant Valid()
        invariant forall p | 0 <= p < pid :: slots[p] == Cwd(true, 0, "")
      {
        slots[pid] := Cwd(true, 0, "");
        pid := pid + 1;
      }
    }

    method InitRoot(pid: u8, device: u8) returns (ok: bool)
      requires Valid()
      modifies slots
      ensures Valid() && (ok <==> pid < MAX_PROCS && DeviceValid(device))
      ensures slots[..] == if ok then old(slots[..])[pid := Cwd(true, device, "")] else old(slots[..])
    {
      if pid >= MAX_PROCS || !DeviceValid(device) {
        return false;
      }
      slots[pid] := Cwd(true, device, "");
      return true;
    }

    method Clone(child: u8, parent: u8) returns (ok: bool)
      requires Valid()
      modifies slots
      ensures Valid() && (ok <==> child < MAX_PROCS && parent < MAX_PROCS && old(slots[..])[parent].valid)
      ensures slots[..] == if ok then old(slots[..])[child := old(slots[parent])] else old(slots[..])
    {
      if child >= MAX_PROCS || parent >= MAX_PROCS || !slots[parent].valid {
        return false;
      }
      slots[child] := slots[parent];
      return true;
    }

    method Get(pid: u8) returns (cwd: Option<(u8, string)>)
      requires Valid()
      ensures cwd == if pid < MAX_PROCS && slots[pid].valid
                     then Some((slots[pid].device, Show(StackOf(slots[pid].path)))) else None
    {
      if pid >= MAX_PROCS || !slots[pid].valid {
        return None;
      }
      GoodCwdFits(slots[pid]);
      return Some((slots[pid].device, if |slots[pid].path| == 0 then "/" else slots[pid].path));
    }

    method Set(pid: u8, device: u8, path: string) returns (ok: bool)
      requires Valid()
      modifies slots
      ensures Valid()
      ensures ok <==> pid < MAX_PROCS && DeviceValid(device) && !HasDrive(path) && PathValid(path)
                      && |Stored(device, path).path| < CWD_MAX
      ensures slots[..] == if ok then old(slots[..])[pid := Stored(device, path)] else old(slots[..])
    {
      if pid >= MAX_PROCS || !DeviceValid(device) {
        return false;
      }
      if HasDrive(path) {
        return false;
      }
      var valid := PathValid83(path);
      if !valid {
        return false;
      }
      var source := path;
      if |source| > 0 && source[0] == '/' {
        source := source[1..];
      }
      if |source| >= CWD_MAX {
        return false;
      }
      slots[pid] := Cwd(true, device, source);
      return true;
    }

    method Format(pid: u8, outLen: nat) returns (text: Option<string>)
      requires Valid()
      ensures text == if pid < MAX_PROCS && slots[pid].valid && |slots[pid].path| + 4 <= outLen
                      then Some(Qualified(slots[pid].device, slots[pid].path)) else None
    {
      if pid >= MAX_PROCS || !slots[pid].valid || !DeviceValid(slots[pid].device) {
        return None;
      }
      var visible := 3 + |slots[pid].path|;
      if visible + 1 > outLen {
        return None;
      }
      return Some(Qualified(slots[pid].device, slots[pid].path));
    }

    /**
     rp_fs_resolve_process_path: the in-place resolver computes exactly the component semantics.
     All buffer accesses are within the 64 bytes.
     */
    method ResolvePath(pid: u8, fallback: u8, input: string) returns (r: PathResult)
      requires Valid() && '\0' !in input
      ensures r == Resolve(pid, if pid < MAX_PROCS then slots[pid] else Cwd(false, 0, ""), fallback, input)
    {
      if pid >= MAX_PROCS {
        return InvalidPid;
      }
      if |input| == 0 {
        return InvalidPath;
      }
      var cwd := slots[pid];
      var device := fallback;
      var cursor := 0;
      var canonical := new char[PATH_MAX](_ => '\0');
      ghost var st: Stack := [];
      if HasDrive(input) {
        device := DriveOf(input);
        cursor := 3;
      } else if input[0] == '/' {
        if cwd.valid {
          device := cwd.device;
        }
        cursor := 1;
      } else if cwd.valid {
        device := cwd.device;
        GoodCwdFits(cwd);
        st := StackOf(cwd.path);
        JoinHasNoNul(st);
        CopyText(canonical, cwd.path);
      }
      if !DeviceValid(device) {
        return InvalidDevice;
      }
      assert input[cursor..] == StartText(input);
      var status, reached := WalkInPlace(canonical, input, cursor, st);
      match status
      case Bad => return InvalidPath;
      case NoRoom => return TooLong;
      case Done =>
        StackOfJoin(reached);
        var len := StrLen(canonical, Join(reached));
        return Resolved(device, if len == 0 then "/" else canonical[..len]);
    }
  }

  /** A resolved path is accepted by the CWD store exactly when it is shorter than 32. */
  lemma ResolvedIsStorable(pid: u8, cwd: Cwd, fallback: u8, input: string)
    requires GoodCwd(cwd) && Resolve(pid, cwd, fallback, input).Resolved?
    ensures var r := Resolve(pid, cwd, fallback, input);
            && DeviceValid(r.device) && !HasDrive(r.path) && PathValid(r.path)
            && (|r.path| < CWD_MAX ==> GoodCwd(Stored(r.device, r.path)))
            && Show(StackOf(Stored(r.device, r.path).path)) == r.path
  {
    var st := ResolvedIsCanonical(pid, cwd, fallback, input);
    if st != [] {
      CanonicalHasNoSlash(st);
      SplitJoin(st);
      var path := Join(st);
      JoinNotEmpty(st);
      assert path[0] == st[0][0] && st[0][0] in st[0];
      if HasDrive(path) {
        var drive := [path[0], path[1]];
        assert path == drive + "/" + path[3..];
        ColonIsInvalid(drive);
        SplitAppend(drive, path[3..]);
        SplitPlain(drive);
        assert false;
      }
    }
  }

  datatype WalkStatus = Done | Bad | NoRoom

  /** The component loop of the resolver, from a cursor position on. */
  method WalkInPlace(buffer: array<char>, input: string, from: nat, ghost start: Stack)
    returns (status: WalkStatus, ghost st: Stack)
    requires buffer.Length == PATH_MAX && from <= |input|
    requires Canonical(start) && Holds(buffer, Join(start))
    modifies buffer
    ensures match Walk(start, Split(input[from..]))
            case Reached(s) => status == Done && st == s && Canonical(s) && Holds(buffer, Join(s))
            case BadName => status == Bad
            case Full => status == NoRoom
  {
    hide Walk, Split, Join, Valid83;
    var cursor := from;
    st := start;
    while cursor < |input|
      invariant from <= cursor <= |input|
      invariant Canonical(st) && Holds(buffer, Join(st))
      invariant Walk(start, Split(input[from..])) == Walk(st, Split(input[cursor..]))
    {
      while cursor < |input| && input[cursor] == '/'
        invariant from <= cursor <= |input| && Holds(buffer, Join(st))
        invariant Walk(start, Split(input[from..])) == Walk(st, Split(input[cursor..]))
      {
        WalkSkipsSlash(st, input[cursor..]);
        assert input[cursor..][1..] == input[cursor + 1..];
        cursor := cursor + 1;
      }
      if cursor == |input| {
        break;
      }
      var end := ComponentEnd(input, cursor);
      var component := input[cursor..end];
      ghost var rest := input[cursor..];
      assert rest[..end - cursor] == component && rest[end - cursor..] == input[end..];
      WalkComponent(st, rest, end - cursor);
      assert component[0] == input[cursor];
      cursor := end;
      if |component| == 1 && component[0] == '.' {
        continue;
      }
      if |component| == 2 && component[0] == '.' && component[1] == '.' {
        assert component == "..";
        PopComponent(buffer, st);
        st := Pop(st);
        continue;
      }
      var valid := PathComponentValid(component);
      if !valid {
        return Bad, st;
      }
      Valid83Shape(component);
      var fits := AppendComponent(buffer, component, st);
      if !fits {
        return NoRoom, st;
      }
      st := st + [component];
    }
    assert input[cursor..] == "";
    WalkNothing(st);
    return Done, st;
  }

  /** memcpy(buffer, text, strlen(text) + 1). */
  method CopyText(buffer: array<char>, text: string)
    requires |text| < buffer.Length && '\0' !in text
    modifies buffer
    ensures Holds(buffer, text)
  {
    CopyAt(buffer, 0, text);
    assert buffer[..|text|] == text;
  }
}
