// The test driver that runs the imap tests (tlib/testsuite.c): how a test's
// name is stored and displayed, how the command line is scanned, and which
// registered tests a command line selects. Arguments and names are C strings;
// a C string is modelled as its characters, and a fixed buffer as all of its
// characters, terminators included.

module TestSelect {
  /** The terminator of a C string. */
  const NUL: char := '\0'

  /** Size of the `name` buffer of a registered test, terminator included. */
  const NAME_SIZE: nat := 64

  /** Width of a display name, terminator excluded. */
  const DISP_WIDTH: nat := 39

  /** ULONG_MAX on an LP64 platform: the repeat count of `--repeat-forever`. */
  const ULONG_MAX: nat := 0xFFFF_FFFF_FFFF_FFFF

  /** `s` holds no terminator: it is the whole of a C string. */
  predicate NoNul(s: seq<char>)
  {
    forall i :: 0 <= i < |s| ==> s[i] != NUL
  }

  /** The C string stored in `s`: the characters before its first terminator. */
  function CStr(s: seq<char>): (r: seq<char>)
    ensures NoNul(r) && |r| <= |s| && r == s[..|r|]
    ensures |r| < |s| ==> s[|r|] == NUL
  {
    if |s| == 0 || s[0] == NUL then [] else [s[0]] + CStr(s[1..])
  }

  /** A prefix without terminators followed by one is the stored C string. */
  lemma {:induction false} CStrStops(s: seq<char>, k: nat)
    requires k < |s| && NoNul(s[..k]) && s[k] == NUL
    ensures CStr(s) == s[..k]
  {
    if k > 0 {
      assert s[1..][..k - 1] == s[1..k];
      CStrStops(s[1..], k - 1);
    }
  }

  /** The first `n` characters of `s`, or all of them when it is shorter. */
  function Trunc(s: seq<char>, n: nat): seq<char>
  {
    if |s| <= n then s else s[..n]
  }

  /** `n` terminators. */
  function Nuls(n: nat): (r: seq<char>)
    ensures |r| == n && forall i :: 0 <= i < n ==> r[i] == NUL
  {
    seq(n, _ => NUL)
  }

  /**
   * The `name` buffer of a new test: strncpy of at most 63 characters into
   * a zeroed 64-character buffer whose last character is then cleared.
   */
  function StoreName(name: seq<char>): (buf: seq<char>)
    ensures |buf| == NAME_SIZE && buf[NAME_SIZE - 1] == NUL
    ensures CStr(buf) == Trunc(CStr(name), NAME_SIZE - 1)
    ensures |CStr(buf)| < NAME_SIZE
  {
    var s := Trunc(CStr(name), NAME_SIZE - 1);
    var buf := s + Nuls(NAME_SIZE - |s|);
    assert buf[..|s|] == s;
    CStrStops(buf, |s|);
    buf
  }

  /** Character `i` of the C string in `s`; past the end of `s`, the terminator. */
  function At(s: seq<char>, i: nat): char
  {
    if i < |s| then s[i] else NUL
  }

  /**
   * `strncmp(a, b, n) == 0` from index `i` on: the strings agree up to
   * index `n` or up to a terminator they share, whichever comes first.
   */
  function SameUpTo(a: seq<char>, b: seq<char>, i: nat, n: nat): bool
    decreases n - i
  {
    i >= n || (At(a, i) == At(b, i) && (At(a, i) == NUL || SameUpTo(a, b, i + 1, n)))
  }

  /** `strcmp(a, b) == 0`: the comparison stops at the terminator of `a` at the latest. */
  function SameString(a: seq<char>, b: seq<char>): bool
  {
    SameUpTo(a, b, 0, |a| + 1)
  }

  /** On whole C strings, strncmp compares the first `n` characters. */
  lemma {:induction false} SameUpToTrunc(a: seq<char>, b: seq<char>, i: nat, n: nat)
    requires NoNul(a) && NoNul(b) && i <= n && i <= |a| && i <= |b| && a[..i] == b[..i]
    ensures SameUpTo(a, b, i, n) <==> Trunc(a, n) == Trunc(b, n)
    decreases n - i
  {
    if i == n {
      assert Trunc(a, n) == a[..i] && Trunc(b, n) == b[..i];
    } else if At(a, i) != At(b, i) {
      if i < |a| && i < |b| {
        assert Trunc(a, n)[i] != Trunc(b, n)[i];
      } else {
        assert |Trunc(a, n)| != |Trunc(b, n)|;
      }
    } else if At(a, i) == NUL {
      assert a == a[..i] && b == b[..i];
    } else {
      assert a[..i + 1] == a[..i] + [a[i]] && b[..i + 1] == b[..i] + [b[i]];
      SameUpToTrunc(a, b, i + 1, n);
    }
  }

  /** On whole C strings, strcmp is equality. */
  lemma {:induction false} SameStringIsEqual(a: seq<char>, b: seq<char>)
    requires NoNul(a) && NoNul(b)
    ensures SameString(a, b) <==> a == b
  {
    SameUpToTrunc(a, b, 0, |a| + 1);
    if |b| > |a| {
      assert |Trunc(b, |a| + 1)| == |a| + 1;
    }
  }

  /** Does `name` match pattern `p`: a prefix when `p` ends in '*', the whole name otherwise. */
  predicate Matches(name: seq<char>, p: seq<char>)
  {
    if 0 < |p| && p[|p| - 1] == '*' then SameUpTo(name, p, 0, |p| - 1) else SameString(name, p)
  }

  /** The matching rule in plain terms, for a name and a pattern that are whole C strings. */
  lemma {:induction false} MatchesMeaning(name: seq<char>, p: seq<char>)
    requires NoNul(name) && NoNul(p)
    ensures 0 < |p| && p[|p| - 1] == '*' ==>
      (Matches(name, p) <==> |p| - 1 <= |name| && name[..|p| - 1] == p[..|p| - 1])
    ensures !(0 < |p| && p[|p| - 1] == '*') ==> (Matches(name, p) <==> name == p)
  {
    if 0 < |p| && p[|p| - 1] == '*' {
      SameUpToTrunc(name, p, 0, |p| - 1);
    } else {
      SameStringIsEqual(name, p);
    }
  }

  /** An argument that begins with '-'; the empty argument begins with its terminator. */
  predicate Dashed(a: seq<char>)
  {
    0 < |a| && a[0] == '-'
  }

  /** An argument that begins with "--": an option, never a pattern. */
  predicate LongOption(a: seq<char>)
  {
    1 < |a| && a[0] == '-' && a[1] == '-'
  }

  /** A "--" option the driver does not know: it stops the run with status 2. */
  predicate Unknown(a: seq<char>)
  {
    LongOption(a) && a != "--list" && a != "--tap" && a != "--no-abort" && a != "--repeat-forever"
  }

  /** How selected tests are reported. */
  datatype Output = Default | List | Tap

  /** The arguments that choose the report. */
  predicate IsOutput(a: seq<char>)
  {
    a == "--list" || a == "--tap"
  }

  /** The report a report option chooses. */
  function OutputOf(a: seq<char>): Output
    requires IsOutput(a)
  {
    if a == "--list" then List else Tap
  }

  /** What the scan of the command line leaves for the run. */
  datatype Options = Options(output: Output, noAbort: bool, repeat: nat, matchAny: bool)

  /** The scan either lets the run go on or exits with a status. */
  datatype Scan = Run(opts: Options) | Exit(status: nat)

  /** The report the last of "--list" and "--tap" in `args` chooses; Default when neither is there. */
  function LastOutput(args: seq<seq<char>>): Output
  {
    if |args| == 0 then Default
    else if IsOutput(args[|args| - 1]) then OutputOf(args[|args| - 1])
    else LastOutput(args[..|args| - 1])
  }

  /** LastOutput is the report of the rightmost report option. */
  lemma {:induction false} LastOutputRightmost(args: seq<seq<char>>)
    ensures (forall i :: 0 <= i < |args| ==> !IsOutput(args[i])) ==> LastOutput(args) == Default
    ensures forall k ::
      0 <= k < |args| && IsOutput(args[k]) && (forall j :: k < j < |args| ==> !IsOutput(args[j])) ==>
        LastOutput(args) == OutputOf(args[k])
    decreases |args|
  {
    if |args| > 0 && !IsOutput(args[|args| - 1]) {
      var init := args[..|args| - 1];
      assert forall i :: 0 <= i < |init| ==> init[i] == args[i];
      LastOutputRightmost(init);
    }
  }

  /**
   * The first pass over the arguments: the known options set the report,
   * no-abort mode and the repeat count; any argument that does not begin
   * with '-' turns default selection off; an unknown "--" option exits.
   */
  method ScanArgs(args: seq<seq<char>>) returns (r: Scan)
    ensures r.Exit? <==> exists i :: 0 <= i < |args| && Unknown(args[i])
    ensures r.Exit? ==> r.status == 2
    ensures r.Run? ==> (r.opts.matchAny <==> forall i :: 0 <= i < |args| ==> Dashed(args[i]))
    ensures r.Run? ==> (r.opts.noAbort <==> "--no-abort" in args)
    ensures r.Run? ==> r.opts.repeat == if "--repeat-forever" in args then ULONG_MAX else 1
    ensures r.Run? && (forall i :: 0 <= i < |args| ==> !IsOutput(args[i])) ==> r.opts.output == Default
    ensures r.Run? ==> forall k ::
      0 <= k < |args| && IsOutput(args[k]) && (forall j :: k < j < |args| ==> !IsOutput(args[j])) ==>
        r.opts.output == OutputOf(args[k])
  {
    var output, noAbort, repeat, matchAny := Default, false, 1, true;
    var i := 0;
    while i < |args|
      invariant 0 <= i <= |args|
      invariant forall j :: 0 <= j < i ==> !Unknown(args[j])
      invariant matchAny <==> forall j :: 0 <= j < i ==> Dashed(args[j])
      invariant noAbort <==> "--no-abort" in args[..i]
      invariant repeat == if "--repeat-forever" in args[..i] then ULONG_MAX else 1
      invariant output == LastOutput(args[..i])
    {
      var a := args[i];
      assert args[..i + 1] == args[..i] + [a];
      if 0 < |a| && a[0] == '-' {
        if a == "--list" {
          output := List;
        } else if a == "--tap" {
          output := Tap;
        } else if a == "--no-abort" {
          noAbort := true;
        } else if a == "--repeat-forever" {
          repeat := ULONG_MAX;
        } else if 1 < |a| && a[1] == '-' {
          return Exit(2);
        }
      } else {
        matchAny := false;
      }
      i := i + 1;
    }
    assert args[..i] == args;
    LastOutputRightmost(args);
    r := Run(Options(output, noAbort, repeat, matchAny));
  }

  /** The pattern of an argument: without its leading '+' or '-'. */
  function Body(a: seq<char>): seq<char>
  {
    if 0 < |a| && (a[0] == '+' || a[0] == '-') then a[1..] else a
  }

  /** Does argument `a` name the test called `name`? "--" options never do. */
  predicate Hits(name: seq<char>, a: seq<char>)
  {
    !LongOption(a) && Matches(name, Body(a))
  }

  /** What an argument that names a test decides: '+' runs it, '-' skips it, a bare pattern runs it unless it is optional. */
  predicate Verdict(a: seq<char>, optional: bool)
  {
    if 0 < |a| && a[0] == '+' then true
    else if 0 < |a| && a[0] == '-' then false
    else !optional
  }

  /**
   * Is the test selected: the last argument that names it decides; when
   * none does, it runs by default unless it is optional or default
   * selection is off.
   */
  function Selects(name: seq<char>, optional: bool, args: seq<seq<char>>, matchAny: bool): bool
    decreases |args|
  {
    if |args| == 0 then matchAny && !optional
    else if Hits(name, args[|args| - 1]) then Verdict(args[|args| - 1], optional)
    else Selects(name, optional, args[..|args| - 1], matchAny)
  }

  /**
   * The rightmost argument that names the test decides; when none does,
   * the default decides.
   */
  lemma {:induction false} LastNameDecides(name: seq<char>, optional: bool, args: seq<seq<char>>, matchAny: bool)
    ensures (forall i :: 0 <= i < |args| ==> !Hits(name, args[i])) ==>
      (Selects(name, optional, args, matchAny) <==> matchAny && !optional)
    ensures forall k ::
      0 <= k < |args| && Hits(name, args[k]) && (forall j :: k < j < |args| ==> !Hits(name, args[j])) ==>
        (Selects(name, optional, args, matchAny) <==> Verdict(args[k], optional))
    decreases |args|
  {
    if |args| > 0 && !Hits(name, args[|args| - 1]) {
      var init := args[..|args| - 1];
      assert forall i :: 0 <= i < |init| ==> init[i] == args[i];
      LastNameDecides(name, optional, init, matchAny);
    }
  }

  /**
   * The selection loop for one test: the arguments from last to first,
   * "--" options skipped, the first one that names the test decides.
   */
  method Select(name: seq<char>, optional: bool, args: seq<seq<char>>, matchAny: bool) returns (sel: bool)
    ensures sel == Selects(name, optional, args, matchAny)
  {
    sel := matchAny && !optional;
    var k := |args|;
    assert args[..k] == args;
    while k > 0
      invariant 0 <= k <= |args|
      invariant sel == (matchAny && !optional)
      invariant Selects(name, optional, args, matchAny) == Selects(name, optional, args[..k], matchAny)
    {
      var a := args[k - 1];
      assert args[..k][..k - 1] == args[..k - 1];
      if LongOption(a) {
        k := k - 1;
        continue;
      }
      var p := Body(a);
      var l := |p|;
      if if 0 < l && p[l - 1] == '*' then SameUpTo(name, p, 0, l - 1) else SameString(name, p) {
        if 0 < |a| && a[0] == '+' {
          sel := true;
        } else if 0 < |a| && a[0] == '-' {
          sel := false;
        } else {
          sel := !optional;
        }
        return;
      }
      k := k - 1;
    }
  }

  /** With only '-' arguments, every test that is not optional runs, unless a '-' pattern names it. */
  lemma {:induction false} DefaultSelection(name: seq<char>, optional: bool, args: seq<seq<char>>)
    requires forall i :: 0 <= i < |args| ==> Dashed(args[i])
    ensures Selects(name, optional, args, true) <==> !optional && forall i :: 0 <= i < |args| ==> !Hits(name, args[i])
    decreases |args|
  {
    if |args| > 0 {
      var init := args[..|args| - 1];
      assert forall i :: 0 <= i < |init| ==> init[i] == args[i];
      DefaultSelection(name, optional, init);
    }
  }

  /**
   * A test that runs although it is optional or default selection is off
   * was named by an argument that selects it; an optional one by a '+'.
   */
  lemma {:induction false} SelectedByPattern(name: seq<char>, optional: bool, args: seq<seq<char>>, matchAny: bool)
    requires Selects(name, optional, args, matchAny) && (optional || !matchAny)
    ensures exists i :: 0 <= i < |args| && Hits(name, args[i]) && Verdict(args[i], optional)
    ensures optional ==> exists i :: 0 <= i < |args| && Hits(name, args[i]) && 0 < |args[i]| && args[i][0] == '+'
    decreases |args|
  {
    var n := |args| - 1;
    if Hits(name, args[n]) {
      assert Hits(name, args[n]) && Verdict(args[n], optional);
    } else {
      var init := args[..n];
      SelectedByPattern(name, optional, init, matchAny);
      var i :| 0 <= i < |init| && Hits(name, init[i]) && Verdict(init[i], optional);
      assert init[i] == args[i];
    }
  }

  /** A "--" option anywhere on the command line changes no test's selection. */
  lemma {:induction false} LongOptionIgnored(name: seq<char>, optional: bool, p: seq<seq<char>>, a: seq<char>, q: seq<seq<char>>, matchAny: bool)
    requires LongOption(a)
    ensures Selects(name, optional, p + [a] + q, matchAny) == Selects(name, optional, p + q, matchAny)
    decreases |q|
  {
    var s, t := p + [a] + q, p + q;
    if |q| == 0 {
      assert s[|s| - 1] == a && !Hits(name, a);
      assert s[..|s| - 1] == p == t;
    } else {
      var q0 := q[..|q| - 1];
      assert s[|s| - 1] == t[|t| - 1];
      assert s[..|s| - 1] == p + [a] + q0;
      assert t[..|t| - 1] == p + q0;
      LongOptionIgnored(name, optional, p, a, q0, matchAny);
    }
  }

  /**
   * The display name of a test: its name cut to 39 characters and padded
   * with '.' to 39, then terminated.
   */
  method DisplayName(name: seq<char>) returns (disp: seq<char>)
    ensures |disp| == DISP_WIDTH + 1 && disp[DISP_WIDTH] == NUL
    ensures forall i :: 0 <= i < DISP_WIDTH ==>
      disp[i] == if i < |CStr(name)| then CStr(name)[i] else '.'
    ensures |CStr(disp)| == DISP_WIDTH
  {
    var s := CStr(name);
    var buf := new char[DISP_WIDTH + 1];
    var displen := |s|;
    if displen > DISP_WIDTH {
      displen := DISP_WIDTH;
    }
    var i := 0;
    while i < displen
      invariant 0 <= i <= displen
      invariant forall j :: 0 <= j < i ==> buf[j] == s[j]
    {
      buf[i] := s[i];
      i := i + 1;
    }
    while i < DISP_WIDTH
      invariant displen <= i <= DISP_WIDTH
      invariant forall j :: 0 <= j < displen ==> buf[j] == s[j]
      invariant forall j :: displen <= j < i ==> buf[j] == '.'
    {
      buf[i] := '.';
      i := i + 1;
    }
    buf[DISP_WIDTH] := NUL;
    disp := buf[..];
    assert forall j :: 0 <= j < DISP_WIDTH ==> disp[..DISP_WIDTH][j] != NUL;
    CStrStops(disp, DISP_WIDTH);
  }
}

// The registry: each list of tests is a circular singly linked list through
// a sentinel whose function is null, with a pointer to its last node.
module TestRegistry {
  import opened TestSelect

  /** A registered test; `fn` is the address of its function, 0 for none. */
  class Test {
    const name: seq<char>
    const fn: nat
    const optional: bool
    var next: Test?

    constructor (name: seq<char>, fn: nat, optional: bool)
      ensures this.name == name && this.fn == fn && this.optional == optional && next == null
    {
      this.name := name;
      this.fn := fn;
      this.optional := optional;
      next := null;
    }
  }

  /** The longest prefix of `s` whose tests all have a function: what a walk up to a null function visits. */
  function Live(s: seq<Test>): (r: seq<Test>)
    ensures |r| <= |s| && r == s[..|r|]
    ensures forall i :: 0 <= i < |r| ==> r[i].fn != 0
    ensures |r| < |s| ==> s[|r|].fn == 0
    ensures (forall i :: 0 <= i < |s| ==> s[i].fn != 0) ==> r == s
  {
    if |s| == 0 || s[0].fn == 0 then [] else [s[0]] + Live(s[1..])
  }

  /** `r` is `s` with some tests left out and the others kept in their order. */
  predicate Subsequence(r: seq<Test>, s: seq<Test>)
    decreases |s|
  {
    if |r| == 0 then true
    else if |s| == 0 then false
    else (r[|r| - 1] == s[|s| - 1] && Subsequence(r[..|r| - 1], s[..|s| - 1])) || Subsequence(r, s[..|s| - 1])
  }

  /** The tests of `s` that the command line selects, in the order of `s`. */
  function Chosen(s: seq<Test>, args: seq<seq<char>>, matchAny: bool): (r: seq<Test>)
    ensures forall i :: 0 <= i < |r| ==> r[i] in s && Selects(CStr(r[i].name), r[i].optional, args, matchAny)
    ensures forall i :: 0 <= i < |s| && Selects(CStr(s[i].name), s[i].optional, args, matchAny) ==> s[i] in r
    ensures Subsequence(r, s)
  {
    if |s| == 0 then []
    else
      var t := s[|s| - 1];
      var r := Chosen(s[..|s| - 1], args, matchAny);
      assert forall i :: 0 <= i < |s| - 1 ==> s[..|s| - 1][i] == s[i];
      if Selects(CStr(t.name), t.optional, args, matchAny) then
        assert (r + [t])[..|r|] == r;
        r + [t]
      else r
  }

  /** One list of tests; `items` lists the registered tests in the order of registration. */
  class TestList {
    const sentinel: Test
    var tail: Test
    ghost var items: seq<Test>

    /**
     * The list is a ring: the sentinel, then each test in turn, then back
     * to the sentinel; `tail` is the last test, or the sentinel when there
     * is none.
     */
    ghost predicate Valid()
      reads this, sentinel, items
    {
      sentinel.fn == 0 && sentinel !in items
      && (forall i, j :: 0 <= i < j < |items| ==> items[i] != items[j])
      && (if |items| == 0 then tail == sentinel && sentinel.next == sentinel
          else tail == items[|items| - 1] && sentinel.next == items[0] && tail.next == sentinel)
      && (forall i :: 0 <= i < |items| - 1 ==> items[i].next == items[i + 1])
    }

    /** An empty list: the sentinel alone, pointing at itself. */
    constructor ()
      ensures Valid() && items == []
    {
      var s := new Test(StoreName([]), 0, false);
      sentinel := s;
      tail := s;
      items := [];
      new;
      s.next := s;
    }

    /** Register a test at the end of the list, its name stored as the 64-character buffer does. */
    method Add(name: seq<char>, fn: nat, optional: bool) returns (t: Test)
      requires Valid()
      modifies this, tail
      ensures Valid() && fresh(t)
      ensures items == old(items) + [t]
      ensures t.name == StoreName(name) && t.fn == fn && t.optional == optional
    {
      t := new Test(StoreName(name), fn, optional);
      t.next := tail.next;
      tail.next := t;
      tail := t;
      items := items + [t];
    }

    /**
     * The run of one round: from the node after the sentinel, which is
     * found as the tail's successor's successor, up to a null function,
     * the tests the command line selects, in registration order.
     */
    method Selection(args: seq<seq<char>>, matchAny: bool) returns (chosen: seq<Test>)
      requires Valid()
      ensures chosen == Chosen(Live(items), args, matchAny)
    {
      chosen := [];
      var t := tail.next.next;
      ghost var i := 0;
      while t.fn != 0
        invariant 0 <= i <= |items|
        invariant t == if i < |items| then items[i] else sentinel
        invariant forall j :: 0 <= j < i ==> items[j].fn != 0
        invariant chosen == Chosen(items[..i], args, matchAny)
        decreases |items| - i
      {
        var sel := Select(CStr(t.name), t.optional, args, matchAny);
        assert items[..i + 1][..i] == items[..i];
        if sel {
          chosen := chosen + [t];
        }
        t := t.next;
        i := i + 1;
      }
      LiveIs(items, i);
    }
  }

  /** The prefix before the first null function is Live. */
  lemma {:induction false} LiveIs(s: seq<Test>, i: nat)
    requires i <= |s| && (forall j :: 0 <= j < i ==> s[j].fn != 0) && (i == |s| || s[i].fn == 0)
    ensures Live(s) == s[..i]
  {
    var r := Live(s);
    if |r| != i {
      assert false;
    }
  }
}
