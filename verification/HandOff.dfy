/** The mutation hand-off: what the desktop builds (native/desktop_policy.cpp, native/runtime.cpp)
  * and what the privileged helper lets through (native/helper_policy.cpp).
  * None stands for an exception. */
module HandOff {
  import opened MachineInts
  import opened Wrappers
  import opened Paths

  // ---------------------------------------------------------------- the backend registry

  datatype Backend = Backend(id: string, aliases: seq<string>, worker: string, writable: bool)

  const REGISTRY: seq<Backend> := [
    Backend("affs", ["affs", "amiga", "ofs", "ffs", "dostype"], "affs-native", true),
    Backend("apfs", ["apfs"], "apfs-native", true),
    Backend("btrfs", ["btrfs"], "btrfs-native", true),
    Backend("exfat", ["exfat"], "exfat-native", true),
    Backend("ext2", ["ext2"], "ext-native", true),
    Backend("ext3", ["ext3"], "ext-native", true),
    Backend("ext4", ["ext4"], "ext-native", true),
    Backend("fat12", ["fat12", "msdos12"], "fat-native", true),
    Backend("fat16", ["fat16", "msdos16"], "fat-native", true),
    Backend("fat32", ["fat32", "vfat"], "fat-native", true),
    Backend("hfs", ["hfs"], "hfs-native", true),
    Backend("hfsplus", ["hfsplus", "hfs+", "hfsx"], "hfsplus-native", true),
    Backend("minix", ["minix", "minix2", "minix3"], "minix-native", true),
    Backend("ntfs", ["ntfs", "ntfs3"], "ntfs-native", true),
    Backend("pfs3", ["pfs3", "pfs", "professionalfilesystem"], "pfs3-native", true),
    Backend("sfs", ["sfs", "sfs0", "sfs2", "smartfilesystem"], "sfs-native", true),
    Backend("swap", ["swap", "swapspace", "linux-swap"], "swap-native", false),
    Backend("ufs", ["ufs", "ufs1", "ufs2", "4.2bsd"], "ufs-native", true),
    Backend("xfs", ["xfs"], "xfs-native", true),
    Backend("zfs", ["zfs", "zfs_member"], "zfs-native", false)
  ]

  function LowerChar(c: char): char {
    if 'A' <= c <= 'Z' then (c as int + 32) as char else c
  }

  function Lower(s: string): (r: string)
    ensures |r| == |s|
  {
    seq(|s|, i requires 0 <= i < |s| => LowerChar(s[i]))
  }

  function LowerAll(names: seq<string>): seq<string> {
    seq(|names|, i requires 0 <= i < |names| => Lower(names[i]))
  }

  /** First backend whose id or one of whose aliases is the name, letter case aside. */
  function BackendByType(registry: seq<Backend>, filesystem: string): Option<Backend> {
    if registry == [] then None
    else if Lower(registry[0].id) == Lower(filesystem) || Lower(filesystem) in LowerAll(registry[0].aliases) then Some(registry[0])
    else BackendByType(registry[1..], filesystem)
  }

  /** The same letters and other characters, letter case of A to Z aside. */
  predicate SameName(a: string, b: string) {
    |a| == |b| && forall i :: 0 <= i < |a| ==> SameLetter(a[i], b[i])
  }

  predicate SameLetter(a: char, b: char) {
    || a == b
    || ('A' <= a <= 'Z' && b as int == a as int - 'A' as int + 'a' as int)
    || ('A' <= b <= 'Z' && a as int == b as int - 'A' as int + 'a' as int)
  }

  /** The backend goes by that name: its id or one of its aliases. */
  predicate GoesBy(b: Backend, name: string) {
    SameName(b.id, name) || exists i :: 0 <= i < |b.aliases| && SameName(b.aliases[i], name)
  }

  lemma LowerIsSameName(a: string, b: string)
    ensures Lower(a) == Lower(b) <==> SameName(a, b)
  {
    if Lower(a) == Lower(b) {
      forall i | 0 <= i < |a|
        ensures SameLetter(a[i], b[i])
      {
        assert Lower(a)[i] == LowerChar(a[i]) && Lower(b)[i] == LowerChar(b[i]);
      }
    }
  }

  lemma MatchIsGoesBy(b: Backend, name: string)
    ensures Lower(b.id) == Lower(name) || Lower(name) in LowerAll(b.aliases) <==> GoesBy(b, name)
  {
    hide Lower, SameName;
    LowerIsSameName(b.id, name);
    forall i | 0 <= i < |b.aliases|
      ensures LowerAll(b.aliases)[i] == Lower(name) <==> SameName(b.aliases[i], name)
    {
      LowerIsSameName(b.aliases[i], name);
    }
  }

  /** The lookup finds the first backend that goes by the name, and none exactly if none does. */
  lemma {:induction false} LookupIsFirst(registry: seq<Backend>, name: string)
    ensures BackendByType(registry, name).None? <==> forall i :: 0 <= i < |registry| ==> !GoesBy(registry[i], name)
    ensures BackendByType(registry, name).Some? ==>
              exists i :: 0 <= i < |registry| && registry[i] == BackendByType(registry, name).value && GoesBy(registry[i], name)
                          && forall j :: 0 <= j < i ==> !GoesBy(registry[j], name)
    decreases |registry|
  {
    hide GoesBy, Lower;
    if registry != [] {
      MatchIsGoesBy(registry[0], name);
      LookupIsFirst(registry[1..], name);
      assert forall i :: 0 < i < |registry| ==> registry[i] == registry[1..][i - 1];
      var found := BackendByType(registry, name);
      if !GoesBy(registry[0], name) && found.Some? {
        var i :| 0 <= i < |registry[1..]| && registry[1..][i] == found.value && GoesBy(registry[1..][i], name)
                 && forall j :: 0 <= j < i ==> !GoesBy(registry[1..][j], name);
        assert registry[i + 1] == found.value;
      }
    }
  }

  const OPERATIONS: set<string> := {"defrag", "growth-defrag", "recover"}

  function DefaultOptions(worker: string, operation: string): seq<string> {
    if operation == "recover" then []
    else if worker == "fat-native" || worker == "exfat-native" then ["--batch-clusters", "4096", "--ram-buffer", "auto"]
    else if worker == "ext-native" then ["--batch-clusters", "4096"]
    else []
  }

  /** Default options of an operation; None where the backend does not have it. */
  function OperationFor(backend: Backend, operation: string): Option<seq<string>> {
    if backend.writable && operation in OPERATIONS then Some(DefaultOptions(backend.worker, operation)) else None
  }

  // ---------------------------------------------------------------- the desktop

  datatype Volume = Volume(
    path: string, filesystem: string, filesystemUuid: string, partitionUuid: string, serial: string, wwn: string,
    size: U64, startSector: U64, mounted: bool, readonly: bool, verified: bool, exactAnalysis: bool,
    defragQualified: bool, growthQualified: bool)

  function Decimal(n: nat): string {
    if n < 10 then [(48 + n) as char] else Decimal(n / 10) + [(48 + n % 10) as char]
  }

  predicate IsAlnum(c: char) {
    '0' <= c <= '9' || 'A' <= c <= 'Z' || 'a' <= c <= 'z'
  }

  /** Characters of a journal file name. */
  predicate IsStemChar(c: char) {
    IsAlnum(c) || c == '_' || c == '.' || c == '-'
  }

  predicate AllStem(s: string) {
    forall i :: 0 <= i < |s| ==> IsStemChar(s[i])
  }

  const STATE_ROOT: string := "/var/lib/defragmenter/state"
  const JOURNAL: string := ".journal"
  const STEM_LIMIT: nat := 80

  /** What the journal name is derived from, and whether it is a stable identity. */
  function Identity(v: Volume): (string, bool) {
    var uuids := if v.partitionUuid == "" then v.filesystemUuid
                 else if v.filesystemUuid == "" then v.partitionUuid
                 else v.filesystemUuid + "|" + v.partitionUuid;
    var identity := if uuids == "" && (v.serial != "" || v.wwn != "")
                    then "media:" + v.serial + "|" + v.wwn + "|" + Decimal(v.startSector) + "|" + Decimal(v.size)
                    else uuids;
    if identity != "" then (identity, true) else (v.path, false)
  }

  function StripSlashes(s: string): (r: string)
    ensures r == "" || r[0] != SLASH
  {
    if s != "" && s[0] == SLASH then StripSlashes(s[1..]) else s
  }

  function SafeChar(c: char): char {
    if IsStemChar(c) then c else '_'
  }

  function SafeText(s: string): (r: string)
    ensures |r| == |s| && AllStem(r)
  {
    seq(|s|, i requires 0 <= i < |s| => SafeChar(s[i]))
  }

  function LastChars(s: string): string {
    if |s| > STEM_LIMIT then s[|s| - STEM_LIMIT..] else s
  }

  function StemOf(text: string): (r: string)
    ensures AllStem(r)
  {
    var stem := LastChars(SafeText(StripSlashes(text)));
    assert AllStem("volume");
    if stem == "" then "volume" else stem
  }

  function Stem(v: Volume): string {
    StemOf(if Identity(v).1 then "volume" else v.path)
  }

  /** The first eight bytes of the SHA-256 digest in lower-case hexadecimal: any sixteen such digits. */
  ghost predicate IsDigest(digest: string -> string) {
    forall s: string :: |digest(s)| == 16 && AllStem(digest(s))
  }

  function JournalFile(v: Volume, digest: string -> string): string {
    Stem(v) + "-" + digest(Identity(v).0) + JOURNAL
  }

  function JournalPath(v: Volume, uid: U32, digest: string -> string): string {
    STATE_ROOT + "/" + Decimal(uid) + "/" + JournalFile(v, digest)
  }

  method DesktopJournal(v: Volume, uid: U32, digest: string -> string) returns (path: string)
    ensures path == JournalPath(v, uid, digest)
  {
    hide StemOf, Decimal;
    var identity := v.filesystemUuid;
    if v.partitionUuid != "" {
      if identity != "" {
        identity := identity + "|";
      }
      assert identity == "" ==> identity + v.partitionUuid == v.partitionUuid;
      identity := identity + v.partitionUuid;
    }
    if identity == "" && (v.serial != "" || v.wwn != "") {
      identity := "media:";
      identity := identity + v.serial + "|" + v.wwn + "|" + Decimal(v.startSector) + "|" + Decimal(v.size);
    }
    var stable := identity != "";
    var material := if stable then identity else v.path;
    assert Identity(v) == (material, stable);
    var stem := SafeStem(if stable then "volume" else v.path);
    path := STATE_ROOT + "/" + Decimal(uid) + "/" + (stem + "-" + digest(material) + JOURNAL);
  }

  /** Edits a text in place into the stem of a file name. */
  method SafeStem(text: string) returns (stem: string)
    ensures stem == StemOf(text)
  {
    hide IsStemChar;
    stem := text;
    while stem != "" && stem[0] == SLASH
      invariant StripSlashes(text) == StripSlashes(stem)
      decreases |stem|
    {
      stem := stem[1..];
    }
    ghost var bare := stem;
    for i := 0 to |stem|
      invariant |stem| == |bare|
      invariant forall k :: 0 <= k < i ==> stem[k] == SafeChar(bare[k])
      invariant forall k :: i <= k < |bare| ==> stem[k] == bare[k]
    {
      if !IsStemChar(stem[i]) {
        stem := stem[i := '_'];
      }
    }
    assert stem == SafeText(bare);
    if |stem| > STEM_LIMIT {
      stem := stem[|stem| - STEM_LIMIT..];
    }
    if stem == "" {
      stem := "volume";
    }
  }

  function Clamp(n: nat, low: nat, high: nat): nat
    requires low <= high
  {
    if n < low then low else if n > high then high else n
  }

  /** The command line of a mutation, engine first. */
  function Mutation(v: Volume, operation: string, engine: string, journal: string, cells: U32, journalExists: bool): Option<seq<string>> {
    var backend := BackendByType(REGISTRY, v.filesystem);
    var options := if backend.None? then None else OperationFor(backend.value, operation);
    if options.None? || (operation != "recover" && !v.verified) || v.mounted || v.readonly then None
    else if operation != "recover" && !v.exactAnalysis then None
    else if operation == "defrag" && !v.defragQualified then None
    else if operation == "growth-defrag" && !v.growthQualified then None
    else if (operation == "recover") != journalExists then None
    else if journal == "" then None
    else Some(
      [engine, operation, v.path, "--filesystem", v.filesystem, "--write", "--confirm", v.path, "--journal", journal]
      + options.value
      + (if operation == "growth-defrag" then ["--growth-percent", "10"] else [])
      + (if operation != "recover" then ["--live-map-cells", Decimal(Clamp(cells, 256, 1048576))] else []))
  }

  /** When a command is built at all: for an unmounted, writable volume of a type with a writer and a
    * journal path.  Recovery needs a journal that is there; anything else needs that there is none, a
    * verified identity, an exact analysis, and the qualification of the operation. */
  lemma MutationAllowed(v: Volume, operation: string, engine: string, journal: string, cells: U32, journalExists: bool)
    ensures Mutation(v, operation, engine, journal, cells, journalExists).Some? <==>
              && BackendByType(REGISTRY, v.filesystem).Some? && BackendByType(REGISTRY, v.filesystem).value.writable
              && !v.mounted && !v.readonly && journal != ""
              && (|| (operation == "recover" && journalExists)
                  || (operation == "defrag" && !journalExists && v.verified && v.exactAnalysis && v.defragQualified)
                  || (operation == "growth-defrag" && !journalExists && v.verified && v.exactAnalysis && v.growthQualified))
  {
    hide BackendByType, Decimal, DefaultOptions;
  }

  /** What a built command says: the fixed part in order, ten percent for growth only, and, except for
    * recovery, the number of live cells, brought into its bounds. */
  lemma MutationSays(v: Volume, operation: string, engine: string, journal: string, cells: U32, journalExists: bool)
    requires Mutation(v, operation, engine, journal, cells, journalExists).Some?
    ensures var c := Mutation(v, operation, engine, journal, cells, journalExists).value;
            && |c| >= 10
            && c[..10] == [engine, operation, v.path, "--filesystem", v.filesystem, "--write", "--confirm", v.path, "--journal", journal]
            && (operation == "recover" ==> |c| == 10)
            && (operation != "recover" ==>
                  && |c| >= 12 && c[|c| - 2] == "--live-map-cells"
                  && (256 <= cells <= 1048576 ==> Value(c[|c| - 1]) == cells)
                  && (cells < 256 ==> Value(c[|c| - 1]) == 256) && (cells > 1048576 ==> Value(c[|c| - 1]) == 1048576))
            && (operation == "growth-defrag" ==> |c| >= 14 && c[|c| - 4..|c| - 2] == ["--growth-percent", "10"])
            && (operation != "growth-defrag" ==> "--growth-percent" !in c[10..])
  {
    hide BackendByType, Decimal, Value;
    var c := Mutation(v, operation, engine, journal, cells, journalExists).value;
    DecimalDigits(Clamp(cells, 256, 1048576));
    var worker := BackendByType(REGISTRY, v.filesystem).value.worker;
    var fixed := [engine, operation, v.path, "--filesystem", v.filesystem, "--write", "--confirm", v.path, "--journal", journal];
    assert c == fixed + Extras(worker, operation, cells);
    assert c[10..] == Extras(worker, operation, cells);
    NumberIsNoOption(Clamp(cells, 256, 1048576));
  }

  lemma NumberIsNoOption(n: nat)
    ensures Decimal(n) != "--growth-percent"
  {
    DecimalDigits(n);
    assert Decimal(n)[0] != '-';
  }

  /** The journal follows the medium: volumes that agree on their identifiers have the same journal,
    * wherever they appear, if there is any identifier. */
  lemma JournalFollowsMedium(v: Volume, w: Volume, uid: U32, digest: string -> string)
    requires v.filesystemUuid == w.filesystemUuid && v.partitionUuid == w.partitionUuid
    requires v.serial == w.serial && v.wwn == w.wwn && v.startSector == w.startSector && v.size == w.size
    requires v.filesystemUuid != "" || v.partitionUuid != "" || v.serial != "" || v.wwn != ""
    ensures JournalPath(v, uid, digest) == JournalPath(w, uid, digest)
    ensures Identity(v).1
  {
    hide Decimal, StemOf;
  }

  // ---------------------------------------------------------------- the helper's validator

  predicate IsIdentifierChar(c: char) {
    IsAlnum(c) || c == '+' || c == '_' || c == '.' || c == '-'
  }

  predicate IsIdentifier(s: string) {
    s != "" && forall i :: 0 <= i < |s| ==> IsIdentifierChar(s[i])
  }

  /** The characters of an identifier by code point: no slash, no white space, no control character. */
  lemma IdentifierCharsAre(c: char)
    ensures IsIdentifierChar(c) <==>
              var n := c as int;
              0x30 <= n <= 0x39 || 0x41 <= n <= 0x5A || 0x61 <= n <= 0x7A || n in {0x2B, 0x2D, 0x2E, 0x5F}
    ensures IsStemChar(c) <==>
              var n := c as int;
              0x30 <= n <= 0x39 || 0x41 <= n <= 0x5A || 0x61 <= n <= 0x7A || n in {0x2D, 0x2E, 0x5F}
  {}

  const VALUE_OPTIONS: set<string> :=
    {"--filesystem", "--confirm", "--journal", "--growth-percent", "--batch-clusters", "--ram-buffer", "--live-map-cells"}

  datatype Item = Item(option: string, value: string)

  /** The options of a request; None if one is unknown, truncated or has an empty value. */
  function Items(arguments: seq<string>): Option<seq<Item>>
    decreases |arguments|
  {
    if arguments == [] then Some([])
    else if arguments[0] == "--write" then Cons(Item("--write", ""), Items(arguments[1..]))
    else if arguments[0] !in VALUE_OPTIONS || |arguments| < 2 || arguments[1] == "" then None
    else Cons(Item(arguments[0], arguments[1]), Items(arguments[2..]))
  }

  function Cons(item: Item, rest: Option<seq<Item>>): Option<seq<Item>> {
    if rest.None? then None else Some([item] + rest.value)
  }

  function Occurs(items: seq<Item>, option: string): nat {
    if items == [] then 0 else Occurs(items[1..], option) + (if items[0].option == option then 1 else 0)
  }

  /** Value of the last occurrence of an option. */
  function LastValue(items: seq<Item>, option: string): string {
    if items == [] then ""
    else if Occurs(items[1..], option) > 0 || items[0].option != option then LastValue(items[1..], option)
    else items[0].value
  }

  /** The condition that single options must meet. */
  predicate ItemAllowed(item: Item, operation: string, device: string) {
    && (item.option == "--filesystem" ==> IsIdentifier(item.value))
    && (item.option == "--confirm" ==> item.value == device)
    && (item.option == "--growth-percent" ==> operation == "growth-defrag" && item.value == "10")
  }

  predicate AllAllowed(items: seq<Item>, operation: string, device: string) {
    forall i :: 0 <= i < |items| ==> ItemAllowed(items[i], operation, device)
  }

  predicate EndsWithJournal(name: string) {
    |name| > |JOURNAL| && name[|name| - |JOURNAL|..] == JOURNAL
  }

  predicate IsJournalName(name: string) {
    EndsWithJournal(name) && AllStem(name)
  }

  function StateDirectory(uid: U32): seq<string> {
    ["var", "lib", "defragmenter", "state", Decimal(uid)]
  }

  predicate IsUserJournal(path: string, uid: U32) {
    IsAbsolute(path) && NormalParent(path) == StateDirectory(uid) && IsJournalName(FileName(path))
  }

  /** What the helper accepts. */
  predicate Accepts(arguments: seq<string>, uid: U32) {
    && |arguments| >= 2 && arguments[0] in OPERATIONS && IsAbsolute(arguments[1])
    && var items := Items(arguments[2..]);
    && items.Some?
    && Authorised(items.value, arguments[0], arguments[1])
    && IsUserJournal(LastValue(items.value, "--journal"), uid)
  }

  /** One filesystem, one --write, one confirmation equal to the target, one journal, and the fixed
    * reserve once for growth-defrag and never otherwise. */
  predicate Authorised(items: seq<Item>, operation: string, device: string) {
    && Occurs(items, "--filesystem") == 1 && Occurs(items, "--write") == 1 && Occurs(items, "--confirm") == 1
    && Occurs(items, "--journal") == 1
    && Occurs(items, "--growth-percent") == (if operation == "growth-defrag" then 1 else 0)
    && AllAllowed(items, operation, device)
  }

  function Prepend(items: seq<Item>, rest: Option<seq<Item>>): Option<seq<Item>> {
    if rest.None? then None else Some(items + rest.value)
  }

  lemma PrependTwice(items: seq<Item>, item: Item, rest: Option<seq<Item>>)
    ensures Prepend(items, Cons(item, rest)) == Prepend(items + [item], rest)
  {
    if rest.Some? {
      assert items + ([item] + rest.value) == items + [item] + rest.value;
    }
  }

  lemma {:induction false} OccursAppend(a: seq<Item>, b: seq<Item>, option: string)
    ensures Occurs(a + b, option) == Occurs(a, option) + Occurs(b, option)
    decreases |a|
  {
    if a == [] {
      assert a + b == b;
    } else {
      OccursAppend(a[1..], b, option);
      assert (a + b)[1..] == a[1..] + b;
    }
  }

  lemma {:induction false} LastValueAppend(items: seq<Item>, item: Item, option: string)
    ensures LastValue(items + [item], option) == if item.option == option then item.value else LastValue(items, option)
    decreases |items|
  {
    if items == [] {
      assert items + [item] == [item];
    } else {
      LastValueAppend(items[1..], item, option);
      OccursAppend(items[1..], [item], option);
      assert (items + [item])[1..] == items[1..] + [item];
      if item.option != option {
        assert Occurs([item], option) == 0;
      } else {
        assert Occurs([item], option) == 1;
      }
    }
  }

  /** Nothing seen so far rules the request out. */
  predicate StillFine(items: seq<Item>, operation: string, device: string) {
    && Occurs(items, "--filesystem") <= 1 && Occurs(items, "--write") <= 1 && Occurs(items, "--confirm") <= 1
    && Occurs(items, "--growth-percent") <= 1
    && AllAllowed(items, operation, device)
  }

  lemma PrefixIsFine(items: seq<Item>, rest: seq<Item>, operation: string, device: string)
    requires Authorised(items + rest, operation, device)
    ensures StillFine(items, operation, device)
  {
    hide ItemAllowed, Occurs;
    OccursAppend(items, rest, "--filesystem");
    OccursAppend(items, rest, "--write");
    OccursAppend(items, rest, "--confirm");
    OccursAppend(items, rest, "--growth-percent");
    forall i | 0 <= i < |items|
      ensures ItemAllowed(items[i], operation, device)
    {
      assert (items + rest)[i] == items[i];
    }
  }

  lemma OneMore(items: seq<Item>, item: Item, option: string)
    ensures Occurs(items + [item], option) == Occurs(items, option) + (if item.option == option then 1 else 0)
  {
    OccursAppend(items, [item], option);
    assert Occurs([item], option) == (if item.option == option then 1 else 0) + Occurs([], option);
  }

  /** What one more option does to a prefix that is fine. */
  lemma FineStep(items: seq<Item>, item: Item, operation: string, device: string)
    requires StillFine(items, operation, device)
    ensures StillFine(items + [item], operation, device) <==>
            && !(item.option in {"--filesystem", "--write", "--confirm", "--growth-percent"} && Occurs(items, item.option) == 1)
            && ItemAllowed(item, operation, device)
  {
    hide ItemAllowed, Occurs;
    OneMore(items, item, "--filesystem");
    OneMore(items, item, "--write");
    OneMore(items, item, "--confirm");
    OneMore(items, item, "--growth-percent");
    assert (items + [item])[|items|] == item;
    if ItemAllowed(item, operation, device) {
      assert AllAllowed(items + [item], operation, device);
    }
  }

  /** A prefix that is not fine cannot be completed to an accepted request. */
  lemma NotFineIsRejected(arguments: seq<string>, uid: U32, items: seq<Item>, rest: Option<seq<Item>>)
    requires |arguments| >= 2 && Items(arguments[2..]) == Prepend(items, rest)
    requires rest.None? || !StillFine(items, arguments[0], arguments[1])
    ensures !Accepts(arguments, uid)
  {
    hide Items, StillFine, Authorised;
    if Accepts(arguments, uid) {
      PrefixIsFine(items, rest.value, arguments[0], arguments[1]);
    }
  }

  /** The part of the loop state that the flags stand for. */
  ghost predicate Flags(items: seq<Item>, filesystem: bool, write: bool, confirm: bool, growth: bool, journals: nat, journal: string) {
    && filesystem == (Occurs(items, "--filesystem") == 1) && write == (Occurs(items, "--write") == 1)
    && confirm == (Occurs(items, "--confirm") == 1) && growth == (Occurs(items, "--growth-percent") == 1)
    && journals == Occurs(items, "--journal") && journal == LastValue(items, "--journal")
  }

  lemma FlagsStep(items: seq<Item>, item: Item, operation: string, device: string,
                  filesystem: bool, write: bool, confirm: bool, growth: bool, journals: nat, journal: string)
    requires Flags(items, filesystem, write, confirm, growth, journals, journal) && StillFine(items, operation, device)
    ensures StillFine(items + [item], operation, device) ==>
      Flags(items + [item], filesystem || item.option == "--filesystem", write || item.option == "--write",
            confirm || item.option == "--confirm", growth || item.option == "--growth-percent",
            if item.option == "--journal" then journals + 1 else journals, if item.option == "--journal" then item.value else journal)
  {
    hide Occurs, LastValue, AllAllowed;
    OneMore(items, item, "--filesystem");
    OneMore(items, item, "--write");
    OneMore(items, item, "--confirm");
    OneMore(items, item, "--growth-percent");
    OneMore(items, item, "--journal");
    LastValueAppend(items, item, "--journal");
  }

  lemma FlagsDecide(arguments: seq<string>, uid: U32, items: seq<Item>,
                    filesystem: bool, write: bool, confirm: bool, growth: bool, journals: nat, journal: string)
    requires |arguments| >= 2 && arguments[0] in OPERATIONS && IsAbsolute(arguments[1])
    requires Items(arguments[2..]) == Some(items)
    requires Flags(items, filesystem, write, confirm, growth, journals, journal) && StillFine(items, arguments[0], arguments[1])
    ensures Accepts(arguments, uid) <==>
      && filesystem && write && confirm && (arguments[0] == "growth-defrag" ==> growth) && journals == 1 && IsUserJournal(journal, uid)
  {
    hide Items, IsUserJournal, ItemAllowed, LastValue;
    if arguments[0] != "growth-defrag" {
      NoReserve(items, arguments[0], arguments[1]);
    }
  }

  lemma {:induction false} NoReserve(items: seq<Item>, operation: string, device: string)
    requires AllAllowed(items, operation, device) && operation != "growth-defrag"
    ensures Occurs(items, "--growth-percent") == 0
    decreases |items|
  {
    if items != [] {
      assert ItemAllowed(items[0], operation, device);
      assert AllAllowed(items[1..], operation, device) by {
        forall i | 0 <= i < |items[1..]|
          ensures ItemAllowed(items[1..][i], operation, device)
        {
          assert items[1..][i] == items[i + 1];
        }
      }
      NoReserve(items[1..], operation, device);
    }
  }

  /** The argument loop of the helper. */
  method ValidateOperationArgs(arguments: seq<string>, uid: U32) returns (ok: bool)
    ensures ok == Accepts(arguments, uid)
  {
    hide Items, IsUserJournal, IsIdentifier, StillFine, Flags, Occurs, LastValue, Authorised, IsAbsolute;
    if |arguments| < 2 || arguments[0] !in OPERATIONS {
      return false;
    }
    var operation, device := arguments[0], arguments[1];
    if !IsAbsolute(device) {
      return false;
    }
    var filesystem, write, confirm, growth, journals, journal := false, false, false, false, 0, "";
    ghost var items: seq<Item> := [];
    var index := 2;
    NothingSeen(arguments, operation, device);
    while index < |arguments|
      invariant 2 <= index <= |arguments|
      invariant Items(arguments[2..]) == Prepend(items, Items(arguments[index..]))
      invariant StillFine(items, operation, device)
      invariant Flags(items, filesystem, write, confirm, growth, journals, journal)
      decreases |arguments| - index
    {
      var token := arguments[index];
      ItemsStep(arguments, index);
      if token == "--write" {
        ghost var item := Item(token, "");
        ghost var rest := Items(arguments[index + 1..]);
        PrependTwice(items, item, rest);
        FineStep(items, item, operation, device);
        FlagsStep(items, item, operation, device, filesystem, write, confirm, growth, journals, journal);
        FlagSet(items, filesystem, write, confirm, growth, journals, journal);
        if write {
          NotFineIsRejected(arguments, uid, items + [item], rest);
          return false;
        }
        write := true;
        items := items + [item];
        index := index + 1;
        continue;
      }
      if token !in VALUE_OPTIONS || index + 1 >= |arguments| || arguments[index + 1] == "" {
        NotFineIsRejected(arguments, uid, items, None);
        return false;
      }
      var value := arguments[index + 1];
      ghost var item := Item(token, value);
      ghost var rest := Items(arguments[index + 2..]);
      PrependTwice(items, item, rest);
      FineStep(items, item, operation, device);
      FlagsStep(items, item, operation, device, filesystem, write, confirm, growth, journals, journal);
      FlagSet(items, filesystem, write, confirm, growth, journals, journal);
      if !StillFine(items + [item], operation, device) {
        NotFineIsRejected(arguments, uid, items + [item], rest);
      }
      if token == "--filesystem" {
        if filesystem || !IsIdentifier(value) {
          return false;
        }
        filesystem := true;
      } else if token == "--confirm" {
        if confirm || value != device {
          return false;
        }
        confirm := true;
      } else if token == "--journal" {
        journals, journal := journals + 1, value;
      } else if token == "--growth-percent" {
        if growth || operation != "growth-defrag" || value != "10" {
          return false;
        }
        growth := true;
      }
      items := items + [item];
      index := index + 2;
    }
    AllSeen(arguments, items);
    FlagsDecide(arguments, uid, items, filesystem, write, confirm, growth, journals, journal);
    if !filesystem || !write || !confirm {
      return false;
    }
    if operation == "growth-defrag" && !growth {
      return false;
    }
    if journals != 1 {
      return false;
    }
    return IsUserJournal(journal, uid);
  }

  lemma NothingSeen(arguments: seq<string>, operation: string, device: string)
    requires |arguments| >= 2
    ensures Items(arguments[2..]) == Prepend([], Items(arguments[2..]))
    ensures StillFine([], operation, device) && Flags([], false, false, false, false, 0, "")
  {
    hide Items;
    var all := Items(arguments[2..]);
    if all.Some? {
      assert [] + all.value == all.value;
    }
  }

  lemma AllSeen(arguments: seq<string>, items: seq<Item>)
    requires |arguments| >= 2 && Items(arguments[2..]) == Prepend(items, Items(arguments[|arguments|..]))
    ensures Items(arguments[2..]) == Some(items)
  {
    assert items + [] == items;
  }

  lemma ItemsStep(arguments: seq<string>, index: nat)
    requires index < |arguments|
    ensures var token := arguments[index];
            Items(arguments[index..]) ==
            if token == "--write" then Cons(Item(token, ""), Items(arguments[index + 1..]))
            else if token !in VALUE_OPTIONS || index + 1 >= |arguments| || arguments[index + 1] == "" then None
            else Cons(Item(token, arguments[index + 1]), Items(arguments[index + 2..]))
  {
    var tail := arguments[index..];
    assert tail[1..] == arguments[index + 1..];
    if index + 1 < |arguments| {
      assert tail[2..] == arguments[index + 2..];
    }
  }

  lemma FlagSet(items: seq<Item>, filesystem: bool, write: bool, confirm: bool, growth: bool, journals: nat, journal: string)
    requires Flags(items, filesystem, write, confirm, growth, journals, journal)
    ensures filesystem == (Occurs(items, "--filesystem") == 1) && write == (Occurs(items, "--write") == 1)
    ensures confirm == (Occurs(items, "--confirm") == 1) && growth == (Occurs(items, "--growth-percent") == 1)
  {
    hide Occurs, LastValue;
  }

  // ---------------------------------------------------------------- known file systems have valid names

  predicate NamesValid(b: Backend) {
    IsIdentifier(b.id) && forall i :: 0 <= i < |b.aliases| ==> IsIdentifier(b.aliases[i])
  }

  lemma FirstNamesValid()
    ensures forall i :: 0 <= i < 7 ==> NamesValid(REGISTRY[i])
  {}

  lemma MiddleNamesValid()
    ensures forall i :: 7 <= i < 14 ==> NamesValid(REGISTRY[i])
  {}

  lemma LaterNamesValid()
    ensures forall i :: 14 <= i < 17 ==> NamesValid(REGISTRY[i])
  {}

  lemma LastNamesValid()
    ensures |REGISTRY| == 20 && forall i :: 17 <= i < 20 ==> NamesValid(REGISTRY[i])
  {}

  lemma RegistryNamesValid()
    ensures forall i :: 0 <= i < |REGISTRY| ==> NamesValid(REGISTRY[i])
  {
    hide NamesValid;
    FirstNamesValid();
    MiddleNamesValid();
    LaterNamesValid();
    LastNamesValid();
  }

  /** Letter case does not matter to the identifier rule. */
  lemma LowerKeepsIdentifier(s: string)
    ensures IsIdentifier(Lower(s)) <==> IsIdentifier(s)
  {
    forall i | 0 <= i < |s|
      ensures IsIdentifierChar(Lower(s)[i]) <==> IsIdentifierChar(s[i])
    {}
  }

  lemma {:induction false} KnownTypeIsIdentifier(registry: seq<Backend>, filesystem: string)
    requires forall i :: 0 <= i < |registry| ==> NamesValid(registry[i])
    requires BackendByType(registry, filesystem).Some?
    ensures IsIdentifier(filesystem)
    decreases |registry|
  {
    hide IsIdentifier, Lower;
    var b := registry[0];
    LowerKeepsIdentifier(filesystem);
    if Lower(b.id) == Lower(filesystem) {
      LowerKeepsIdentifier(b.id);
    } else if Lower(filesystem) in LowerAll(b.aliases) {
      var i :| 0 <= i < |b.aliases| && Lower(b.aliases[i]) == Lower(filesystem);
      LowerKeepsIdentifier(b.aliases[i]);
    } else {
      KnownTypeIsIdentifier(registry[1..], filesystem);
    }
  }

  // ---------------------------------------------------------------- the journal path

  function Value(s: string): int {
    if s == "" then 0 else Value(s[..|s| - 1]) * 10 + (s[|s| - 1] as int - 48)
  }

  lemma {:induction false} DecimalDigits(n: nat)
    ensures Decimal(n) != "" && AllStem(Decimal(n)) && Value(Decimal(n)) == n
    ensures forall i :: 0 <= i < |Decimal(n)| ==> '0' <= Decimal(n)[i] <= '9'
  {
    if n < 10 {
      assert Decimal(n)[..0] == "";
    } else {
      DecimalDigits(n / 10);
      assert Decimal(n)[..|Decimal(n)| - 1] == Decimal(n / 10);
    }
  }

  lemma DecimalIsPlain(n: nat)
    ensures IsPlain(Decimal(n))
  {
    DecimalDigits(n);
    assert Decimal(n)[0] != '.';
  }

  lemma JournalNameIsPlain(name: string)
    requires IsJournalName(name)
    ensures IsPlain(name)
  {}

  lemma JournalFileIsName(v: Volume, digest: string -> string)
    requires IsDigest(digest)
    ensures IsJournalName(JournalFile(v, digest))
  {
    hide IsStemChar, SafeText;
    var stem, hex := Stem(v), digest(Identity(v).0);
    assert AllStem("volume") && AllStem("-") && AllStem(JOURNAL) by {
      Letters();
    }
    AllStemJoin(stem, "-");
    AllStemJoin(stem + "-", hex);
    AllStemJoin(stem + "-" + hex, JOURNAL);
    var name := JournalFile(v, digest);
    assert name == (stem + "-" + hex) + JOURNAL;
    assert name[|name| - |JOURNAL|..] == JOURNAL;
  }

  lemma Letters()
    ensures AllStem("volume") && AllStem("-") && AllStem(JOURNAL)
  {}

  lemma AllStemJoin(a: string, b: string)
    requires AllStem(a) && AllStem(b)
    ensures AllStem(a + b)
  {
    hide IsStemChar;
  }

  lemma JournalNames(uid: U32, file: string)
    requires IsPlain(file)
    ensures Names(STATE_ROOT + "/" + Decimal(uid) + "/" + file) == StateDirectory(uid) + [file]
  {
    hide Names, IsPlain, Decimal;
    DecimalIsPlain(uid);
    DirectoriesArePlain();
    var u := Decimal(uid);
    var rest := "/" + file;
    assert file + "" == file && Names("") == [] by {
      NoNames();
    }
    NamesJoin(file, "");
    assert "/" + file + "" == rest;
    NamesJoin(u, rest);
    NamesJoin("state", "/" + u + rest);
    NamesJoin("defragmenter", "/" + "state" + ("/" + u + rest));
    NamesJoin("lib", "/" + "defragmenter" + ("/" + "state" + ("/" + u + rest)));
    NamesJoin("var", "/" + "lib" + ("/" + "defragmenter" + ("/" + "state" + ("/" + u + rest))));
    PathText(u, file);
  }

  lemma PathText(u: string, file: string)
    ensures STATE_ROOT + "/" + u + "/" + file ==
            "/" + "var" + ("/" + "lib" + ("/" + "defragmenter" + ("/" + "state" + ("/" + u + ("/" + file)))))
  {
    assert STATE_ROOT == "/" + "var" + ("/" + "lib" + ("/" + "defragmenter" + ("/" + "state")));
  }

  lemma NoNames()
    ensures Names("") == []
  {}

  lemma DirectoriesArePlain()
    ensures IsPlain("var") && IsPlain("lib") && IsPlain("defragmenter") && IsPlain("state")
  {}

  /** The path that the desktop derives lies directly in the user's state directory, and in no other user's. */
  lemma JournalIsUsers(v: Volume, uid: U32, helperUid: U32, digest: string -> string)
    requires IsDigest(digest)
    ensures IsUserJournal(JournalPath(v, uid, digest), helperUid) <==> uid == helperUid
  {
    hide Names, JournalFile, IsJournalName, IsPlain, Decimal;
    var file := JournalFile(v, digest);
    var path := JournalPath(v, uid, digest);
    JournalFileIsName(v, digest);
    JournalNameIsPlain(file);
    JournalNames(uid, file);
    DecimalIsPlain(uid);
    DirectoriesArePlain();
    ResolvePlain([], StateDirectory(uid) + [file]);
    assert [] + (StateDirectory(uid) + [file]) == StateDirectory(uid) + [file];
    PathEnds(path, STATE_ROOT + "/" + Decimal(uid) + "/", file);
    PlainIsNotDots(file);
    assert NormalParent(path) == StateDirectory(uid);
    assert FileName(path) == file;
    DecimalDigits(uid);
    DecimalDigits(helperUid);
    assert StateDirectory(uid)[4] == Decimal(uid) && StateDirectory(helperUid)[4] == Decimal(helperUid);
  }

  lemma PlainIsNotDots(name: string)
    requires IsPlain(name)
    ensures !IsDots(name)
  {}

  lemma PathEnds(path: string, front: string, file: string)
    requires path == front + file && IsPlain(file) && front != "" && front[0] == SLASH
    ensures IsAbsolute(path) && !EndsWithSlash(path)
  {}

  /** An accepted journal path names one file directly in the user's state directory. */
  lemma UserJournalIsDirect(path: string, uid: U32)
    requires IsUserJournal(path, uid)
    ensures Resolve([], Names(path)) == StateDirectory(uid) + [FileName(path)] && IsJournalName(FileName(path))
  {
    hide NormalParent, FileName, Names, IsJournalName;
    JournalNameIsPlain(FileName(path));
    PlainFileResolves(path);
  }

  // ---------------------------------------------------------------- the hand-off

  /** Arguments that one item takes. */
  function ItemWidth(token: string): nat {
    if token == "--write" then 1 else 2
  }

  lemma ItemsHead(a: seq<string>, b: seq<string>)
    requires Items(a).Some? && a != []
    ensures ItemWidth(a[0]) <= |a|
    ensures var k := ItemWidth(a[0]); var item := Items(a).value[0];
            Items(a) == Cons(item, Items(a[k..])) && Items(a + b) == Cons(item, Items(a[k..] + b))
  {
    hide Items;
    ItemsStep(a, 0);
    ItemsStep(a + b, 0);
    assert a[0..] == a && (a + b)[0..] == a + b;
    assert (a + b)[ItemWidth(a[0])..] == a[ItemWidth(a[0])..] + b;
  }

  lemma {:induction false} ItemsAppend(a: seq<string>, b: seq<string>)
    requires Items(a).Some?
    ensures Items(a + b) == Prepend(Items(a).value, Items(b))
    decreases |a|
  {
    if a == [] {
      assert a + b == b;
      if Items(b).Some? {
        assert [] + Items(b).value == Items(b).value;
      }
    } else {
      hide Items;
      var k, item := ItemWidth(a[0]), Items(a).value[0];
      ItemsHead(a, b);
      ItemsAppend(a[k..], b);
      if Items(b).Some? {
        assert [item] + (Items(a[k..]).value + Items(b).value) == [item] + Items(a[k..]).value + Items(b).value;
      }
    }
  }

  lemma PairItem(option: string, value: string)
    requires option in VALUE_OPTIONS && value != ""
    ensures Items([option, value]) == Some([Item(option, value)])
  {
    assert [option, value][2..] == [];
    assert Items([]) == Some([]);
    assert [Item(option, value)] + [] == [Item(option, value)];
  }

  lemma WriteItem()
    ensures Items(["--write"]) == Some([Item("--write", "")])
  {
    assert ["--write"][1..] == [];
    assert Items([]) == Some([]);
    assert [Item("--write", "")] + [] == [Item("--write", "")];
  }

  /** The options that every mutation carries. */
  function Authority(v: Volume, journal: string): seq<Item> {
    [Item("--filesystem", v.filesystem), Item("--write", ""), Item("--confirm", v.path), Item("--journal", journal)]
  }

  lemma AuthorityItems(v: Volume, journal: string)
    requires v.filesystem != "" && v.path != "" && journal != ""
    ensures Items(["--filesystem", v.filesystem, "--write", "--confirm", v.path, "--journal", journal]) == Some(Authority(v, journal))
  {
    hide Items;
    PairItem("--filesystem", v.filesystem);
    WriteItem();
    PairItem("--confirm", v.path);
    PairItem("--journal", journal);
    var a, b, c, d := ["--filesystem", v.filesystem], ["--write"], ["--confirm", v.path], ["--journal", journal];
    ItemsAppend(c, d);
    ItemsAppend(b, c + d);
    ItemsAppend(a, b + (c + d));
    var x := Authority(v, journal);
    assert [x[0]] + ([x[1]] + ([x[2]] + [x[3]])) == x;
    assert a + (b + (c + d)) == ["--filesystem", v.filesystem, "--write", "--confirm", v.path, "--journal", journal];
  }

  /** Tuning options: the helper does not restrict them. */
  predicate IsTuning(item: Item) {
    item.option in {"--batch-clusters", "--ram-buffer", "--live-map-cells"}
  }

  predicate AllTuning(items: seq<Item>) {
    forall i :: 0 <= i < |items| ==> IsTuning(items[i])
  }

  lemma DefaultItems(worker: string, operation: string)
    ensures Items(DefaultOptions(worker, operation)).Some? && AllTuning(Items(DefaultOptions(worker, operation)).value)
  {
    hide Items;
    PairItem("--batch-clusters", "4096");
    PairItem("--ram-buffer", "auto");
    ItemsAppend(["--batch-clusters", "4096"], ["--ram-buffer", "auto"]);
    assert ["--batch-clusters", "4096"] + ["--ram-buffer", "auto"] == ["--batch-clusters", "4096", "--ram-buffer", "auto"];
    NoItems();
  }

  lemma NoItems()
    ensures Items([]) == Some([])
  {}

  function Reserve(operation: string): seq<Item> {
    if operation == "growth-defrag" then [Item("--growth-percent", "10")] else []
  }

  lemma {:induction false} TuningOccurs(items: seq<Item>, option: string)
    requires AllTuning(items) && option !in {"--batch-clusters", "--ram-buffer", "--live-map-cells"}
    ensures Occurs(items, option) == 0
    decreases |items|
  {
    if items != [] {
      assert IsTuning(items[0]);
      assert AllTuning(items[1..]) by {
        forall i | 0 <= i < |items[1..]|
          ensures IsTuning(items[1..][i])
        {
          assert items[1..][i] == items[i + 1];
        }
      }
      TuningOccurs(items[1..], option);
    }
  }

  lemma AuthorityOccurs(v: Volume, journal: string, option: string)
    ensures Occurs(Authority(v, journal), option) == if option in {"--filesystem", "--write", "--confirm", "--journal"} then 1 else 0
  {
    var items := Authority(v, journal);
    assert items == [items[0]] + ([items[1]] + ([items[2]] + [items[3]]));
    OccursAppend([items[0]], [items[1]] + ([items[2]] + [items[3]]), option);
    OccursAppend([items[1]], [items[2]] + [items[3]], option);
    OccursAppend([items[2]], [items[3]], option);
    OccursOnce(items[0], option);
    OccursOnce(items[1], option);
    OccursOnce(items[2], option);
    OccursOnce(items[3], option);
  }

  lemma OccursOnce(item: Item, option: string)
    ensures Occurs([item], option) == if item.option == option then 1 else 0
  {
    assert Occurs([], option) == 0;
  }

  /** Everything behind the authority of a built command. */
  function Extras(worker: string, operation: string, cells: U32): seq<string> {
    DefaultOptions(worker, operation)
    + (if operation == "growth-defrag" then ["--growth-percent", "10"] else [])
    + (if operation != "recover" then ["--live-map-cells", Decimal(Clamp(cells, 256, 1048576))] else [])
  }

  lemma ExtraItems(worker: string, operation: string, cells: U32) returns (before: seq<Item>, after: seq<Item>)
    ensures AllTuning(before) && AllTuning(after)
    ensures Items(Extras(worker, operation, cells)) == Some(before + (Reserve(operation) + after))
  {
    hide Items, Decimal;
    var a := DefaultOptions(worker, operation);
    var b := if operation == "growth-defrag" then ["--growth-percent", "10"] else [];
    var c := if operation != "recover" then ["--live-map-cells", Decimal(Clamp(cells, 256, 1048576))] else [];
    NoItems();
    DefaultItems(worker, operation);
    DecimalDigits(Clamp(cells, 256, 1048576));
    PairItem("--growth-percent", "10");
    PairItem("--live-map-cells", Decimal(Clamp(cells, 256, 1048576)));
    before, after := Items(a).value, Items(c).value;
    ItemsAppend(b, c);
    ItemsAppend(a, b + c);
    assert a + (b + c) == Extras(worker, operation, cells);
  }

  lemma ReserveOccurs(operation: string, option: string)
    ensures Occurs(Reserve(operation), option) == if operation == "growth-defrag" && option == "--growth-percent" then 1 else 0
  {
    OccursOnce(Item("--growth-percent", "10"), option);
  }

  /** How often an option occurs in a built command. */
  lemma BuiltOccurs(v: Volume, journal: string, operation: string, before: seq<Item>, after: seq<Item>, option: string)
    requires AllTuning(before) && AllTuning(after) && option !in {"--batch-clusters", "--ram-buffer", "--live-map-cells"}
    ensures Occurs(Authority(v, journal) + (before + (Reserve(operation) + after)), option) ==
            if option in {"--filesystem", "--write", "--confirm", "--journal"} then 1
            else if operation == "growth-defrag" && option == "--growth-percent" then 1 else 0
  {
    hide Occurs;
    OccursAppend(Authority(v, journal), before + (Reserve(operation) + after), option);
    OccursAppend(before, Reserve(operation) + after, option);
    OccursAppend(Reserve(operation), after, option);
    AuthorityOccurs(v, journal, option);
    ReserveOccurs(operation, option);
    TuningOccurs(before, option);
    TuningOccurs(after, option);
  }

  lemma BuiltAllowed(v: Volume, journal: string, operation: string, before: seq<Item>, after: seq<Item>)
    requires AllTuning(before) && AllTuning(after) && IsIdentifier(v.filesystem)
    ensures AllAllowed(Authority(v, journal) + (before + (Reserve(operation) + after)), operation, v.path)
  {
    hide IsIdentifier;
    var items := Authority(v, journal) + (before + (Reserve(operation) + after));
    forall i | 0 <= i < |items|
      ensures ItemAllowed(items[i], operation, v.path)
    {
      var x := items[i];
      if 4 <= i < 4 + |before| {
        assert x == before[i - 4] && IsTuning(x);
      } else if i >= 4 + |before| + |Reserve(operation)| {
        assert x == after[i - 4 - |before| - |Reserve(operation)|] && IsTuning(x);
      }
    }
  }

  lemma BuiltJournal(v: Volume, journal: string, rest: seq<Item>)
    requires Occurs(rest, "--journal") == 0
    ensures LastValue(Authority(v, journal) + rest, "--journal") == journal
  {
    hide Occurs;
    var items := Authority(v, journal);
    LastValueOf(items + rest, 0, rest);
  }

  lemma {:induction false} LastValueOf(items: seq<Item>, k: nat, rest: seq<Item>)
    requires |items| == 4 + |rest| && items[4..] == rest && k <= 3 && Occurs(rest, "--journal") == 0
    requires items[3].option == "--journal"
    ensures LastValue(items[k..], "--journal") == items[3].value
    ensures Occurs(items[3..], "--journal") == 1
    decreases 3 - k
  {
    assert items[k..][1..] == items[k + 1..];
    if k < 3 {
      LastValueOf(items, k + 1, rest);
      if k == 0 {
        assert items[0..] == items;
      }
      SomeOccurs(items, k + 1);
    }
  }

  lemma {:induction false} SomeOccurs(items: seq<Item>, k: nat)
    requires |items| > 3 && k <= 3 && items[3].option == "--journal"
    ensures Occurs(items[k..], "--journal") > 0
    decreases 3 - k
  {
    assert items[k..][1..] == items[k + 1..];
    if k < 3 {
      SomeOccurs(items, k + 1);
    }
  }

  /** Any command that the desktop builds with the journal path it derives for a user passes the
    * helper exactly when the volume's path is absolute and the helper runs for the same user. */
  lemma HandOffPasses(v: Volume, operation: string, engine: string, uid: U32, helperUid: U32,
                      digest: string -> string, cells: U32, journalExists: bool)
    requires IsDigest(digest)
    requires Mutation(v, operation, engine, JournalPath(v, uid, digest), cells, journalExists).Some?
    ensures var command := Mutation(v, operation, engine, JournalPath(v, uid, digest), cells, journalExists).value;
            Accepts(command[1..], helperUid) <==> IsAbsolute(v.path) && uid == helperUid
  {
    hide IsDigest, JournalPath, IsIdentifier, Items, Occurs, LastValue, AllAllowed, IsUserJournal, Decimal,
         NamesValid, BackendByType;
    var journal := JournalPath(v, uid, digest);
    var command := Mutation(v, operation, engine, journal, cells, journalExists).value;
    var worker := BackendByType(REGISTRY, v.filesystem).value.worker;
    RegistryNamesValid();
    KnownTypeIsIdentifier(REGISTRY, v.filesystem);
    IdentifierNotEmpty(v.filesystem);
    JournalIsUsers(v, uid, helperUid, digest);
    var authority := ["--filesystem", v.filesystem, "--write", "--confirm", v.path, "--journal", journal];
    var extras := Extras(worker, operation, cells);
    assert command[1..] == [operation, v.path] + (authority + extras);
    assert command[1..][2..] == authority + extras;
    if IsAbsolute(v.path) {
      AuthorityItems(v, journal);
      var before, after := ExtraItems(worker, operation, cells);
      ItemsAppend(authority, extras);
      var rest := before + (Reserve(operation) + after);
      var items := Authority(v, journal) + rest;
      assert Items(command[1..][2..]) == Some(items);
      BuiltOccurs(v, journal, operation, before, after, "--filesystem");
      BuiltOccurs(v, journal, operation, before, after, "--write");
      BuiltOccurs(v, journal, operation, before, after, "--confirm");
      BuiltOccurs(v, journal, operation, before, after, "--journal");
      BuiltOccurs(v, journal, operation, before, after, "--growth-percent");
      BuiltAllowed(v, journal, operation, before, after);
      OccursAppend(Authority(v, journal), rest, "--journal");
      AuthorityOccurs(v, journal, "--journal");
      BuiltJournal(v, journal, rest);
    }
  }

  lemma IdentifierNotEmpty(s: string)
    requires IsIdentifier(s)
    ensures s != ""
  {}
}
