/** The architecture tables of the application: the display name and the alias list of
    every architecture, and the two first-match lookups that turn a metadata string or an
    image file name into an architecture. */
module Architectures {
  import opened Common

  /** The enumeration, in declaration order; `COUNT` is the sentinel after the last one. */
  datatype Architecture =
    | ALL | X86_64 | X86 | ARM | AARCH64 | MIPSEL | RISCV64 | E2K | PPC64LE | UNKNOWN | COUNT

  function Index(a: Architecture): (i: nat)
    ensures i <= CountIndex
  {
    match a
    case ALL => 0
    case X86_64 => 1
    case X86 => 2
    case ARM => 3
    case AARCH64 => 4
    case MIPSEL => 5
    case RISCV64 => 6
    case E2K => 7
    case PPC64LE => 8
    case UNKNOWN => 9
    case COUNT => 10
  }

  const CountIndex: nat := 10

  function FromIndex(i: nat): (a: Architecture)
    requires i <= CountIndex
    ensures Index(a) == i
  {
    if i == 0 then ALL
    else if i == 1 then X86_64
    else if i == 2 then X86
    else if i == 3 then ARM
    else if i == 4 then AARCH64
    else if i == 5 then MIPSEL
    else if i == 6 then RISCV64
    else if i == 7 then E2K
    else if i == 8 then PPC64LE
    else if i == 9 then UNKNOWN
    else COUNT
  }

  lemma IndexInjective(a: Architecture, b: Architecture)
    requires Index(a) == Index(b)
    ensures a == b
  {
  }

  /** The intended enumeration `0 .. COUNT-1`, in order. */
  function All(): (r: seq<Architecture>)
    ensures |r| == CountIndex
    ensures forall i :: 0 <= i < |r| ==> Index(r[i]) == i
    ensures COUNT !in r
  {
    [ALL, X86_64, X86, ARM, AARCH64, MIPSEL, RISCV64, E2K, PPC64LE, UNKNOWN]
  }

  /** Every architecture but the sentinel sits in the enumeration at its own index. */
  lemma AllAtIndex(a: Architecture)
    ensures a != COUNT ==> All()[Index(a)] == a
  {
  }

  /** The enumeration as the source builds it when the returned local list is not the
      static list itself: the builder appends to the static list that is still being
      initialised (undefined behaviour) and then returns its own local list, which stays
      empty. When the compiler elides that copy, the intended `All` comes back instead. */
  function AllAsWritten(): (r: seq<Architecture>)
    ensures |r| == 0
  {
    []
  }

  /** `architecture_strings`: the alias table. */
  function Strings(a: Architecture): (r: seq<string>)
    ensures a in {ALL, UNKNOWN, COUNT} <==> r == []
  {
    match a
    case ALL => []
    case X86_64 => ["x86-64", "x86_64"]
    case X86 => ["x86", "i386", "i586", "i686"]
    case ARM => ["armv7hl", "armhfp", "armh"]
    case AARCH64 => ["aarch64"]
    case MIPSEL => ["mipsel"]
    case RISCV64 => ["riscv", "riscv64"]
    case E2K => ["e2k"]
    case PPC64LE => ["ppc64le"]
    case UNKNOWN => []
    case COUNT => []
  }

  /** `architecture_name`: the untranslated display name. */
  function Name(a: Architecture): (r: string)
    ensures r == [] <==> a == COUNT
  {
    match a
    case ALL => "All"
    case X86_64 => "AMD 64bit"
    case X86 => "Intel 32bit"
    case ARM => "ARM v7"
    case AARCH64 => "AArch64"
    case MIPSEL => "MIPS"
    case RISCV64 => "RiscV64"
    case E2K => "Elbrus"
    case PPC64LE => "PowerPC"
    case UNKNOWN => "Unknown"
    case COUNT => ""
  }

  /** `s` equals one of the aliases of `a`, ignoring case. */
  predicate AliasMatch(a: Architecture, s: string) {
    exists k :: 0 <= k < |Strings(a)| && EqualsIgnoreCase(Strings(a)[k], s)
  }

  /** One of the aliases of `a` occurs in `filename`, ignoring case. */
  predicate FilenameMatch(a: Architecture, filename: string) {
    exists k :: 0 <= k < |Strings(a)| && ContainsIgnoreCase(filename, Strings(a)[k])
  }

  /** `QStringList::contains(s, Qt::CaseInsensitive)` over an alias list. */
  function ListContainsIgnoreCase(aliases: seq<string>, s: string): (r: bool)
    ensures r <==> exists k :: 0 <= k < |aliases| && EqualsIgnoreCase(aliases[k], s)
  {
    if aliases == [] then false
    else if EqualsIgnoreCase(aliases[0], s) then true
    else
      var r := ListContainsIgnoreCase(aliases[1..], s);
      assert forall k :: 1 <= k < |aliases| ==> aliases[k] == aliases[1..][k - 1];
      r
  }

  /** The inner loop of `architecture_from_filename`: some alias, tried in order, is a
      case-insensitive substring of the file name. */
  function AnyAliasIn(aliases: seq<string>, filename: string): (r: bool)
    ensures r <==> exists k :: 0 <= k < |aliases| && ContainsIgnoreCase(filename, aliases[k])
  {
    if aliases == [] then false
    else if ContainsIgnoreCase(filename, aliases[0]) then true
    else
      var r := AnyAliasIn(aliases[1..], filename);
      assert forall k :: 1 <= k < |aliases| ==> aliases[k] == aliases[1..][k - 1];
      r
  }

  /** The loop shared by both lookups: the first architecture of `list` that passes
      `test`, or UNKNOWN when none does. */
  function FirstWhere(list: seq<Architecture>, test: Architecture -> bool): (r: Architecture)
    ensures r == UNKNOWN || (r in list && test(r))
  {
    if list == [] then UNKNOWN
    else if test(list[0]) then list[0]
    else
      var r := FirstWhere(list[1..], test);
      assert r in list[1..] ==> r in list;
      r
  }

  /** The loop stops at the first passing architecture: when `list[i]` passes, the result
      is a passing architecture found no later than position `i`. */
  lemma {:induction false} FirstWhereStopsEarly(list: seq<Architecture>, test: Architecture -> bool, i: nat)
    requires i < |list| && test(list[i])
    ensures FirstWhere(list, test) in list[..i + 1]
    ensures test(FirstWhere(list, test))
  {
    if !test(list[0]) {
      assert i != 0;
      assert list[1..][i - 1] == list[i];
      FirstWhereStopsEarly(list[1..], test, i - 1);
      assert list[1..][..i] == list[1..i + 1];
    }
  }

  /** Over the intended enumeration, a passing architecture bounds the index of the result. */
  lemma FirstWhereInAll(test: Architecture -> bool, b: Architecture)
    requires b != COUNT && test(b)
    ensures test(FirstWhere(All(), test))
    ensures Index(FirstWhere(All(), test)) <= Index(b)
  {
    AllAtIndex(b);
    FirstWhereStopsEarly(All(), test, Index(b));
    var r := FirstWhere(All(), test);
    var j :| 0 <= j < Index(b) + 1 && All()[..Index(b) + 1][j] == r;
    assert Index(r) == j;
  }

  /** The loop of `architecture_from_string` over a given enumeration. */
  function FromStringIn(list: seq<Architecture>, s: string): (r: Architecture)
    ensures r == UNKNOWN || (r in list && AliasMatch(r, s))
  {
    FirstWhere(list, a => ListContainsIgnoreCase(Strings(a), s))
  }

  /** The loop of `architecture_from_filename` over a given enumeration. */
  function FromFilenameIn(list: seq<Architecture>, filename: string): (r: Architecture)
    ensures r == UNKNOWN || (r in list && FilenameMatch(r, filename))
  {
    FirstWhere(list, a => AnyAliasIn(Strings(a), filename))
  }

  /** `architecture_from_string` over the intended enumeration. */
  function FromString(s: string): (r: Architecture)
    ensures r != ALL && r != COUNT
    ensures r == UNKNOWN || AliasMatch(r, s)
  {
    FromStringIn(All(), s)
  }

  /** `architecture_from_filename` over the intended enumeration. */
  function FromFilename(filename: string): (r: Architecture)
    ensures r != ALL && r != COUNT
    ensures r == UNKNOWN || FilenameMatch(r, filename)
  {
    FromFilenameIn(All(), filename)
  }

  /** `architecture_from_string` finds an architecture whenever one has `s` as an alias,
      and never one that comes after a matching architecture in the enumeration: the
      result is the first match, and UNKNOWN exactly when nothing matches. */
  lemma FromStringIsFirst(s: string, b: Architecture)
    requires AliasMatch(b, s)
    ensures FromString(s) != UNKNOWN
    ensures Index(FromString(s)) <= Index(b)
  {
    FirstWhereInAll(a => ListContainsIgnoreCase(Strings(a), s), b);
  }

  /** The same for `architecture_from_filename`. */
  lemma FromFilenameIsFirst(filename: string, b: Architecture)
    requires FilenameMatch(b, filename)
    ensures FromFilename(filename) != UNKNOWN
    ensures Index(FromFilename(filename)) <= Index(b)
  {
    FirstWhereInAll(a => AnyAliasIn(Strings(a), filename), b);
  }

  /** A string equal to an alias, ignoring case, contains that alias, ignoring case. */
  lemma EqualImpliesContained(alias: string, s: string)
    requires EqualsIgnoreCase(alias, s)
    ensures ContainsIgnoreCase(s, alias)
  {
    var l := Lower(s);
    assert OccursAt(l, l, 0);
  }

  lemma AliasMatchImpliesFilenameMatch(a: Architecture, s: string)
    requires AliasMatch(a, s)
    ensures FilenameMatch(a, s)
  {
    var aliases := Strings(a);
    var k :| 0 <= k < |aliases| && EqualsIgnoreCase(aliases[k], s);
    EqualImpliesContained(aliases[k], s);
  }

  /** A string that names an architecture exactly also contains that alias as a file name
      would, so the file-name lookup finds it, or an architecture listed before it. */
  lemma StringMatchImpliesFilenameMatch(s: string)
    requires FromString(s) != UNKNOWN
    ensures FromFilename(s) != UNKNOWN
    ensures Index(FromFilename(s)) <= Index(FromString(s))
  {
    var a := FromString(s);
    AliasMatchImpliesFilenameMatch(a, s);
    FromFilenameIsFirst(s, a);
  }

  /** Under the enumeration as written every lookup falls through to UNKNOWN, however
      well the input names an architecture. */
  lemma AsWrittenLookupsAlwaysUnknown(s: string)
    ensures FromStringIn(AllAsWritten(), s) == UNKNOWN
    ensures FromFilenameIn(AllAsWritten(), s) == UNKNOWN
  {
  }

  /** "i686" is not an alias of X86_64. */
  lemma NotX86_64Alias()
    ensures !AliasMatch(X86_64, "i686")
  {
    assert Lower("i686")[0] == 'i';
    assert Lower("x86-64")[0] == 'x';
    assert Lower("x86_64")[0] == 'x';
  }

  /** The discrepancy on a concrete input: "i686" is an alias of X86. */
  lemma AsWrittenDiffersFromIntended()
    ensures FromStringIn(AllAsWritten(), "i686") == UNKNOWN
    ensures FromString("i686") == X86
  {
    assert EqualsIgnoreCase(Strings(X86)[3], "i686");
    FromStringIsFirst("i686", X86);
    NotX86_64Alias();
    var r := FromString("i686");
    assert Index(r) <= 2;
    assert r == X86 by {
      if r != X86 { IndexInjective(r, if Index(r) == 0 then ALL else X86_64); }
    }
  }
}
