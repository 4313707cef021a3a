/**
 What paths mean: a path is a list of components between slashes, and a directory is a stack
 of valid 8.3 names. The in-place resolver of rp_fs_path.cpp is proved against this model.
 */
module PathModel {
  import opened Words
  import opened Names83

  const MAX_PROCS: nat := 8       // RP_FS_NEOX_MAX_PROCS
  const PATH_MAX: nat := 64       // RP_FS_NEOX_PATH_MAX
  const CWD_MAX: nat := 32        // RP_FS_NEOX_CWD_MAX
  const MAX_DEVICES: nat := 4     // USB_STORAGE_MAX_DEVICES

  type Stack = seq<string>

  datatype Cwd = Cwd(valid: bool, device: u8, path: string)

  datatype PathResult =
    | Resolved(device: u8, path: string)
    | InvalidPid
    | InvalidDevice
    | InvalidPath
    | TooLong

  predicate DeviceValid(device: u8) {
    device < MAX_DEVICES && device <= 9
  }

  predicate HasDrive(s: string) {
    |s| >= 3 && '0' <= s[0] <= '9' && s[1] == ':' && s[2] == '/'
  }

  function DriveOf(s: string): u8
    requires HasDrive(s)
  {
    (s[0] - '0') as int
  }

  /** The components between slashes; a slash at an end or a double slash gives empty ones. */
  ghost function Split(s: string): (parts: seq<string>)
    ensures |parts| >= 1
  {
    if s == "" then [""]
    else
      var rest := Split(s[1..]);
      if s[0] == '/' then [""] + rest else [[s[0]] + rest[0]] + rest[1..]
  }

  ghost function Join(st: Stack): string {
    if st == [] then ""
    else if |st| == 1 then st[0]
    else Join(st[..|st| - 1]) + "/" + st[|st| - 1]
  }

  ghost predicate Canonical(st: Stack) {
    forall i | 0 <= i < |st| :: Valid83(st[i])
  }

  ghost function Pop(st: Stack): Stack {
    if st == [] then [] else st[..|st| - 1]
  }

  /** The stack a canonical path text stands for; the empty text is the root. */
  ghost function StackOf(path: string): Stack {
    if path == "" then [] else Split(path)
  }

  datatype WalkResult = Reached(stack: Stack) | BadName | Full

  /**
   Component semantics: empty and "." do nothing, ".." pops (the root stays the root), a valid
   name is pushed unless the joined stack would not fit the buffer, anything else is an error.
   */
  ghost function Walk(st: Stack, parts: seq<string>): WalkResult
    decreases |parts|
  {
    if parts == [] then Reached(st)
    else if parts[0] == "" || parts[0] == "." then Walk(st, parts[1..])
    else if parts[0] == ".." then Walk(Pop(st), parts[1..])
    else if !Valid83(parts[0]) then BadName
    else if |Join(st + [parts[0]])| >= PATH_MAX then Full
    else Walk(st + [parts[0]], parts[1..])
  }

  /** How the prefix of the input selects device, start stack and remaining text. */
  ghost function StartDevice(cwd: Cwd, fallback: u8, input: string): u8 {
    if HasDrive(input) then DriveOf(input) else if cwd.valid then cwd.device else fallback
  }

  ghost function StartStack(cwd: Cwd, input: string): Stack
    requires input != ""
  {
    if HasDrive(input) || input[0] == '/' || !cwd.valid then [] else StackOf(cwd.path)
  }

  function StartText(input: string): string
    requires input != ""
  {
    if HasDrive(input) then input[3..] else if input[0] == '/' then input[1..] else input
  }

  /** A stack as the callers see it: "/" for the root. */
  ghost function Show(st: Stack): string {
    if st == [] then "/" else Join(st)
  }

  ghost function Resolve(pid: u8, cwd: Cwd, fallback: u8, input: string): PathResult {
    if pid >= MAX_PROCS then InvalidPid
    else if input == "" then InvalidPath
    else if !DeviceValid(StartDevice(cwd, fallback, input)) then InvalidDevice
    else match Walk(StartStack(cwd, input), Split(StartText(input)))
      case Reached(st) => Resolved(StartDevice(cwd, fallback, input), Show(st))
      case BadName => InvalidPath
      case Full => TooLong
  }

  // ---------------------------------------------------------------------------
  // Splitting and joining
  // ---------------------------------------------------------------------------

  lemma SplitCons(c: char, s: string)
    ensures var rest := Split(s);
            Split([c] + s) == if c == '/' then [""] + rest else [[c] + rest[0]] + rest[1..]
  {
    assert ([c] + s)[1..] == s;
  }

  /** Putting a character in front of the first part commutes with appending parts. */
  lemma Regroup(c: char, rest: seq<string>, tail: seq<string>)
    requires rest != []
    ensures [""] + (rest + tail) == ([""] + rest) + tail
    ensures [[c] + (rest + tail)[0]] + (rest + tail)[1..] == ([[c] + rest[0]] + rest[1..]) + tail
  {
    assert (rest + tail)[1..] == rest[1..] + tail;
  }

  lemma SplitFront(c: char, s: string, b: string)
    requires Split(s + "/" + b) == Split(s) + Split(b)
    ensures Split([c] + s + "/" + b) == Split([c] + s) + Split(b)
  {
    SplitCons(c, s);
    SplitCons(c, s + "/" + b);
    hide Split;
    Regroup(c, Split(s), Split(b));
    assert [c] + s + "/" + b == [c] + (s + "/" + b);
  }

  lemma {:induction false} SplitAppend(a: string, b: string)
    ensures Split(a + "/" + b) == Split(a) + Split(b)
  {
    if a == "" {
      SplitCons('/', b);
      assert a + "/" + b == ['/'] + b;
    } else {
      hide Split;
      SplitAppend(a[1..], b);
      SplitFront(a[0], a[1..], b);
      assert a == [a[0]] + a[1..];
    }
  }

  lemma {:induction false} SplitPlain(s: string)
    requires '/' !in s
    ensures Split(s) == [s]
  {
    if s != "" {
      SplitPlain(s[1..]);
      assert [s[0]] + s[1..] == s;
    }
  }

  lemma {:induction false} SplitNoSlash(s: string, i: nat)
    requires i < |Split(s)|
    ensures '/' !in Split(s)[i] && |Split(s)[i]| <= |s|
  {
    if s != "" {
      if s[0] == '/' {
        if i > 0 {
          SplitNoSlash(s[1..], i - 1);
        }
      } else {
        SplitNoSlash(s[1..], i);
      }
    }
  }

  lemma JoinSnoc(st: Stack, last: string)
    ensures Join(st + [last]) == if st == [] then last else Join(st) + "/" + last
  {
    assert (st + [last])[..|st|] == st;
  }

  lemma {:induction false} SplitJoin(st: Stack)
    requires st != [] && forall i | 0 <= i < |st| :: '/' !in st[i]
    ensures Split(Join(st)) == st
  {
    var init, last := st[..|st| - 1], st[|st| - 1];
    assert st == init + [last];
    JoinSnoc(init, last);
    SplitPlain(last);
    if init != [] {
      hide Join, Split;
      SplitJoin(init);
      SplitAppend(Join(init), last);
    }
  }

  lemma {:induction false} JoinFront(first: string, rest: Stack)
    requires rest != []
    ensures Join([first] + rest) == first + "/" + Join(rest)
    decreases |rest|
  {
    var init, last := rest[..|rest| - 1], rest[|rest| - 1];
    assert rest == init + [last] && [first] + rest == ([first] + init) + [last];
    JoinSnoc(init, last);
    JoinSnoc([first] + init, last);
    if init == [] {
      assert [first] + init == [first];
    } else {
      hide Join;
      JoinFront(first, init);
    }
  }

  lemma JoinFirst(c: char, rest: Stack)
    requires rest != []
    ensures Join([[c] + rest[0]] + rest[1..]) == [c] + Join(rest)
  {
    if |rest| == 1 {
      assert [[c] + rest[0]] + rest[1..] == [[c] + rest[0]];
    } else {
      hide Join;
      JoinFront(rest[0], rest[1..]);
      assert [rest[0]] + rest[1..] == rest;
      JoinFront([c] + rest[0], rest[1..]);
    }
  }

  lemma {:induction false} JoinSplit(s: string)
    ensures Join(Split(s)) == s
  {
    if s != "" {
      SplitCons(s[0], s[1..]);
      assert [s[0]] + s[1..] == s;
      hide Split, Join;
      JoinSplit(s[1..]);
      if s[0] == '/' {
        JoinFront("", Split(s[1..]));
      } else {
        JoinFirst(s[0], Split(s[1..]));
      }
    }
  }

  lemma CanonicalHasNoSlash(st: Stack)
    requires Canonical(st)
    ensures forall i | 0 <= i < |st| :: '/' !in st[i] && st[i] != ""
  {
    forall i | 0 <= i < |st|
      ensures '/' !in st[i] && st[i] != ""
    {
      Valid83Shape(st[i]);
    }
  }

  /** Text and stack of a canonical directory determine each other. */
  lemma StackOfJoin(st: Stack)
    requires Canonical(st)
    ensures StackOf(Join(st)) == st && (Join(st) == "" <==> st == [])
  {
    CanonicalHasNoSlash(st);
    if st != [] {
      SplitJoin(st);
      JoinNotEmpty(st);
    }
  }

  lemma {:induction false} JoinNotEmpty(st: Stack)
    requires st != [] && st[0] != ""
    ensures Join(st) != "" && Join(st)[0] == st[0][0]
  {
    if |st| > 1 {
      JoinNotEmpty(st[..|st| - 1]);
    }
  }

  lemma {:induction false} JoinHasNoNul(st: Stack)
    requires Canonical(st)
    ensures '\0' !in Join(st)
  {
    if st != [] {
      var n := |st| - 1;
      Valid83Shape(st[n]);
      JoinHasNoNul(st[..n]);
    }
  }

  // ---------------------------------------------------------------------------
  // Walking
  // ---------------------------------------------------------------------------

  lemma {:induction false} WalkAppend(st: Stack, ps: seq<string>, qs: seq<string>)
    ensures Walk(st, ps + qs) == match Walk(st, ps)
            case Reached(st') => Walk(st', qs)
            case BadName => BadName
            case Full => Full
    decreases |ps|
  {
    if ps == [] {
      assert ps + qs == qs;
    } else {
      assert (ps + qs)[1..] == ps[1..] + qs;
      if ps[0] == "" || ps[0] == "." {
        WalkAppend(st, ps[1..], qs);
      } else if ps[0] == ".." {
        WalkAppend(Pop(st), ps[1..], qs);
      } else {
        WalkAppend(st + [ps[0]], ps[1..], qs);
      }
    }
  }

  /** A walk from a canonical stack that fits stays canonical and fits. */
  lemma {:induction false} WalkStaysCanonical(st: Stack, parts: seq<string>)
    requires Canonical(st) && |Join(st)| < PATH_MAX
    ensures Walk(st, parts).Reached? ==>
              Canonical(Walk(st, parts).stack) && |Join(Walk(st, parts).stack)| < PATH_MAX
    decreases |parts|
  {
    if parts != [] {
      if parts[0] == "" || parts[0] == "." {
        WalkStaysCanonical(st, parts[1..]);
      } else if parts[0] == ".." {
        if |st| >= 2 {
          assert |Join(st[..|st| - 1])| <= |Join(st)|;
        }
        WalkStaysCanonical(Pop(st), parts[1..]);
      } else if Valid83(parts[0]) && |Join(st + [parts[0]])| < PATH_MAX {
        WalkStaysCanonical(st + [parts[0]], parts[1..]);
      }
    }
  }

  lemma {:induction false} JoinPrefixShorter(st: Stack, n: nat)
    requires n <= |st|
    ensures |Join(st[..n])| <= |Join(st)|
  {
    if n < |st| {
      JoinPrefixShorter(st[..|st| - 1], n);
      assert st[..|st| - 1][..n] == st[..n];
    } else {
      assert st[..n] == st;
    }
  }

  /** Walking down a canonical stack from the root reaches exactly that stack. */
  lemma {:induction false} WalkDown(st: Stack, n: nat)
    requires Canonical(st) && |Join(st)| < PATH_MAX && n <= |st|
    ensures Walk(st[..n], st[n..]) == Reached(st)
    decreases |st| - n
  {
    if n < |st| {
      Valid83Shape(st[n]);
      assert st[..n] + [st[n]] == st[..n + 1];
      assert st[n..][1..] == st[n + 1..];
      JoinPrefixShorter(st, n + 1);
      WalkDown(st, n + 1);
    } else {
      assert st[..n] == st;
    }
  }

  // ---------------------------------------------------------------------------
  // Composition and round trips
  // ---------------------------------------------------------------------------

  /** What the CWD table holds: a valid device and a canonical path shorter than 32. */
  ghost predicate GoodCwd(cwd: Cwd) {
    DeviceValid(cwd.device) && |cwd.path| < CWD_MAX && Canonical(StackOf(cwd.path))
  }

  /** The slot that storing a resolved directory produces. */
  function Stored(device: u8, path: string): Cwd {
    Cwd(true, device, if path != "" && path[0] == '/' then path[1..] else path)
  }

  lemma GoodCwdFits(cwd: Cwd)
    requires GoodCwd(cwd)
    ensures Join(StackOf(cwd.path)) == cwd.path && |Join(StackOf(cwd.path))| < PATH_MAX
  {
    JoinSplit(cwd.path);
  }

  lemma ResolvedIsCanonical(pid: u8, cwd: Cwd, fallback: u8, input: string) returns (st: Stack)
    requires GoodCwd(cwd) && Resolve(pid, cwd, fallback, input).Resolved?
    ensures Canonical(st) && |Join(st)| < PATH_MAX
    ensures Walk(StartStack(cwd, input), Split(StartText(input))) == Reached(st)
    ensures Resolve(pid, cwd, fallback, input) == Resolved(StartDevice(cwd, fallback, input), Show(st))
    ensures Stored(0, Show(st)).path == Join(st) && StackOf(Join(st)) == st
  {
    st := Walk(StartStack(cwd, input), Split(StartText(input))).stack;
    GoodCwdFits(cwd);
    WalkStaysCanonical(StartStack(cwd, input), Split(StartText(input)));
    StackOfJoin(st);
    if st != [] {
      CanonicalHasNoSlash(st);
      JoinNotEmpty(st);
      assert st[0][0] in st[0];
    }
  }

  /**
   chdir composition: when path a resolves and is stored as the new CWD, a relative path b means
   the same in the new state as a + "/" + b meant in the old one, error codes included.
   */
  lemma ChdirComposes(pid: u8, cwd: Cwd, fallback: u8, fallback': u8, a: string, b: string)
    requires GoodCwd(cwd) && Resolve(pid, cwd, fallback, a).Resolved?
    requires b != "" && b[0] != '/' && !HasDrive(b)
    ensures var r := Resolve(pid, cwd, fallback, a);
            Resolve(pid, Stored(r.device, r.path), fallback', b) == Resolve(pid, cwd, fallback, a + "/" + b)
  {
    var st := ResolvedIsCanonical(pid, cwd, fallback, a);
    var both := a + "/" + b;
    SamePrefix(pid, cwd, fallback, a, b);
    SplitAppend(StartText(a), b);
    WalkAppend(StartStack(cwd, a), Split(StartText(a)), Split(b));
  }

  lemma ColonIsInvalid(s: string)
    requires |s| == 2 && s[1] == ':'
    ensures !Valid83(s)
  {
    assert !NameChar(s[1]);
  }

  /** Appending "/b" to a path that resolves does not change what its prefix selects. */
  lemma SamePrefix(pid: u8, cwd: Cwd, fallback: u8, a: string, b: string)
    requires Resolve(pid, cwd, fallback, a).Resolved?
    ensures var both := a + "/" + b;
            && HasDrive(both) == HasDrive(a) && both[0] == a[0]
            && StartDevice(cwd, fallback, both) == StartDevice(cwd, fallback, a)
            && StartStack(cwd, both) == StartStack(cwd, a)
            && StartText(both) == StartText(a) + "/" + b
  {
    var both := a + "/" + b;
    if HasDrive(both) && !HasDrive(a) {
      assert |a| == 2 && a[1] == ':';
      assert '/' !in a by {
        assert a == [a[0], a[1]];
      }
      SplitPlain(a);
      ColonIsInvalid(a);
      assert false;
    }
  }

  /** "N:/" followed by any resolved path resolves to that path, for every process and fallback. */
  lemma QualifiedRoundTrip(pid: u8, cwd: Cwd, fallback: u8, input: string, pid': u8, cwd': Cwd, fallback': u8)
    requires GoodCwd(cwd) && Resolve(pid, cwd, fallback, input).Resolved? && pid' < MAX_PROCS
    ensures var r := Resolve(pid, cwd, fallback, input);
            Resolve(pid', cwd', fallback', Qualified(r.device, r.path)) == r
  {
    var st := ResolvedIsCanonical(pid, cwd, fallback, input);
    var r := Resolve(pid, cwd, fallback, input);
    var text := Qualified(r.device, r.path);
    assert text[3..] == r.path;
    if st == [] {
      assert Split("/") == ["", ""] by {
        assert "/"[1..] == "";
      }
      assert Walk([], ["", ""]) == Walk([], [""]);
    } else {
      WalkDown(st, 0);
      assert st[..0] == [] && st[0..] == st;
    }
  }

  function Qualified(device: u8, path: string): (text: string)
    requires device <= 9
    ensures HasDrive(text) && DriveOf(text) == device && text[3..] == path
  {
    ['0' + device as char, ':', '/'] + path
  }

  /** Formatting a CWD and resolving the text gives the CWD back, whoever asks. */
  lemma FormatRoundTrip(cwd: Cwd, pid: u8, other: Cwd, fallback: u8)
    requires GoodCwd(cwd) && pid < MAX_PROCS
    ensures Resolve(pid, other, fallback, Qualified(cwd.device, cwd.path)) ==
            Resolved(cwd.device, if cwd.path == "" then "/" else cwd.path)
  {
    var st := StackOf(cwd.path);
    GoodCwdFits(cwd);
    if st != [] {
      WalkDown(st, 0);
      assert st[..0] == [] && st[0..] == st;
    } else {
      assert Walk([], [""]) == Walk([], []);
    }
  }

  // ---------------------------------------------------------------------------
  // Where a path starts, and what each component does
  // ---------------------------------------------------------------------------

  /** An absolute path means the same as with the drive spelled out, whatever the working directory. */
  lemma AbsoluteIgnoresDirectory(pid: u8, cwd: Cwd, cwd': Cwd, fallback: u8, fallback': u8, x: string)
    ensures var device := if cwd.valid then cwd.device else fallback;
            Resolve(pid, cwd, fallback, "/" + x) ==
            if pid >= MAX_PROCS then InvalidPid
            else if device > 9 then InvalidDevice
            else Resolve(pid, cwd', fallback', Qualified(device, x))
  {
    assert ("/" + x)[1..] == x;
  }

  /** Without a working directory a relative path starts at the root. */
  lemma RelativeWithoutDirectory(pid: u8, cwd: Cwd, fallback: u8, x: string)
    requires !cwd.valid && x != "" && x[0] != '/' && !HasDrive(x)
    ensures Resolve(pid, cwd, fallback, x) == Resolve(pid, cwd, fallback, "/" + x)
  {
    assert ("/" + x)[1..] == x;
  }

  /** The starting points: the roots, and the working directory. */
  lemma StartingPoints(pid: u8, cwd: Cwd, fallback: u8, device: u8)
    requires GoodCwd(cwd)
    ensures forall input :: Resolve(pid, cwd, fallback, input) == InvalidPid <==> pid >= 8
    ensures pid < 8 ==> Resolve(pid, cwd, fallback, "") == InvalidPath
    ensures pid < 8 && device <= 9 ==>
              Resolve(pid, cwd, fallback, Qualified(device, "")) ==
              if device < 4 then Resolved(device, "/") else InvalidDevice
    ensures pid < 8 && cwd.valid ==>
              Resolve(pid, cwd, fallback, ".") == Resolved(cwd.device, if cwd.path == "" then "/" else cwd.path)
  {
    assert Walk([], [""]) == Walk([], []);
    SplitPlain(".");
    if cwd.valid {
      GoodCwdFits(cwd);
      assert Walk(StackOf(cwd.path), ["."]) == Walk(StackOf(cwd.path), []);
      StackOfJoin(StackOf(cwd.path));
    }
  }

  /** A relative path goes on from the working directory. */
  lemma RelativeGoesOn(pid: u8, cwd: Cwd, fallback: u8, x: string)
    requires x != "" && x[0] != '/' && !HasDrive(x)
    ensures Resolve(pid, cwd, fallback, "." + "/" + x) == Resolve(pid, cwd, fallback, x)
  {
    SplitAppend(".", x);
    SplitPlain(".");
    assert (["."] + Split(x))[1..] == Split(x);
    assert !HasDrive("." + "/" + x);
  }

  /** An absolute path goes on from the root, with or without a drive. */
  lemma AbsoluteGoesOn(pid: u8, cwd: Cwd, fallback: u8, device: u8, x: string)
    requires device <= 9
    ensures Resolve(pid, cwd, fallback, "/" + "/" + x) == Resolve(pid, cwd, fallback, "/" + x)
    ensures Resolve(pid, cwd, fallback, Qualified(device, "") + "/" + x) ==
            Resolve(pid, cwd, fallback, Qualified(device, x))
  {
    SplitAppend("", x);
    assert ([""] + Split(x))[1..] == Split(x);
    assert ("/" + "/" + x)[1..] == "" + "/" + x && ("/" + x)[1..] == x;
    var text := Qualified(device, "") + "/" + x;
    assert text[3..] == "" + "/" + x && HasDrive(text) && DriveOf(text) == device;
  }

  /** What one more component does to a path that resolves. */
  lemma NextComponent(pid: u8, cwd: Cwd, fallback: u8, a: string, n: string)
    requires GoodCwd(cwd) && Resolve(pid, cwd, fallback, a).Resolved? && '/' !in n
    ensures var r, next := Resolve(pid, cwd, fallback, a), Resolve(pid, cwd, fallback, a + "/" + n);
            var child := if r.path == "/" then n else r.path + "/" + n;
            && (n == "" || n == "." ==> next == r)
            && (n == ".." && ('/' !in r.path || r.path == "/") ==> next == Resolved(r.device, "/"))
            && (Valid83(n) ==> next == if |child| < 64 then Resolved(r.device, child) else TooLong)
            && (n != "" && n != "." && n != ".." && !Valid83(n) ==> next == InvalidPath)
  {
    var st := NextReaches(pid, cwd, fallback, a, n);
    SplitPlain(n);
    StackOfJoin(st);
    CanonicalHasNoSlash(st);
    if Valid83(n) {
      Valid83Shape(n);
      JoinSnoc(st, n);
    }
    assert [n][1..] == [];
    if n == ".." && |st| > 1 {
      JoinHasSlash(st);
    }
  }

  /** ".." cuts the last component off. */
  lemma ParentDirectory(pid: u8, cwd: Cwd, fallback: u8, a: string, q: string, m: string)
    requires GoodCwd(cwd) && Resolve(pid, cwd, fallback, a).Resolved?
    requires q != "" && '/' !in m && Resolve(pid, cwd, fallback, a).path == q + "/" + m
    ensures Resolve(pid, cwd, fallback, a + "/" + "..") == Resolved(Resolve(pid, cwd, fallback, a).device, q)
  {
    var st := NextReaches(pid, cwd, fallback, a, "..");
    SplitPlain("..");
    assert [".."][1..] == [];
    StackOfJoin(st);
    SplitAppend(q, m);
    SplitPlain(m);
    assert st == Split(q) + [m];
    JoinSplit(q);
  }

  /** The walk that one more component, or more, takes from where the path leads. */
  lemma NextReaches(pid: u8, cwd: Cwd, fallback: u8, a: string, b: string) returns (st: Stack)
    requires GoodCwd(cwd) && Resolve(pid, cwd, fallback, a).Resolved?
    ensures var r := Resolve(pid, cwd, fallback, a);
            && Canonical(st) && r.path == Show(st)
            && Resolve(pid, cwd, fallback, a + "/" + b) ==
               match Walk(st, Split(b))
               case Reached(st') => Resolved(r.device, Show(st'))
               case BadName => InvalidPath
               case Full => TooLong
  {
    st := ResolvedIsCanonical(pid, cwd, fallback, a);
    SamePrefix(pid, cwd, fallback, a, b);
    SplitAppend(StartText(a), b);
    WalkAppend(StartStack(cwd, a), Split(StartText(a)), Split(b));
  }

  lemma JoinHasSlash(st: Stack)
    requires |st| > 1
    ensures '/' in Join(st)
  {
    var n := |st| - 1;
    assert Join(st) == Join(st[..n]) + "/" + st[n];
    assert Join(st)[|Join(st[..n])|] == '/';
  }

  /** An error stays one, whatever follows. */
  lemma ErrorsStay(pid: u8, cwd: Cwd, fallback: u8, a: string, b: string)
    requires a != "" && !Resolve(pid, cwd, fallback, a).Resolved? && HasDrive(a + "/" + b) == HasDrive(a)
    ensures Resolve(pid, cwd, fallback, a + "/" + b) == Resolve(pid, cwd, fallback, a)
  {
    var both := a + "/" + b;
    assert both[0] == a[0] && StartText(both) == StartText(a) + "/" + b;
    SplitAppend(StartText(a), b);
    WalkAppend(StartStack(cwd, a), Split(StartText(a)), Split(b));
  }
}
