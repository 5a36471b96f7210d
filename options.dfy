/** The GeoTIFF creation options of `RasterMath`: the defaults of
    `_init_raster_parameters` and the block-size entries that
    `_managed_raster_parameters` keeps in step with the block size. */
module RasterOptions {
  import opened RowMask

  // ---------------------------------------------------------------------
  // Strings

  /** `str.upper` on ASCII letters; other characters are kept. */
  function UpperChar(c: char): (u: char)
    ensures 'a' <= c <= 'z' ==> u as int == c as int - 32
    ensures !('a' <= c <= 'z') ==> u == c
  {
    if 'a' <= c <= 'z' then (c as int - 32) as char else c
  }

  function Upper(s: string): (u: string)
    ensures |u| == |s| && forall i :: 0 <= i < |s| ==> u[i] == UpperChar(s[i])
  {
    if s == [] then [] else [UpperChar(s[0])] + Upper(s[1..])
  }

  /** Upper-casing works character by character, so it distributes over
      concatenation. */
  lemma UpperAppend(a: string, b: string)
    ensures Upper(a + b) == Upper(a) + Upper(b)
  {
    assert forall i :: 0 <= i < |a + b| ==> Upper(a + b)[i] == (Upper(a) + Upper(b))[i];
  }

  /** A string without lower-case letters is its own upper case. */
  lemma UpperOfUpper(s: string)
    requires forall i :: 0 <= i < |s| ==> !('a' <= s[i] <= 'z')
    ensures Upper(s) == s
  {
  }

  predicate StartsWith(s: string, prefix: string) {
    |prefix| <= |s| && s[..|prefix|] == prefix
  }

  /** `'{}'.format(n)` for a natural number: its decimal digits. */
  function NatToString(n: nat): (s: string)
    ensures |s| > 0 && forall i :: 0 <= i < |s| ==> '0' <= s[i] <= '9'
    decreases n
  {
    if n < 10 then [Digit(n)] else NatToString(n / 10) + [Digit(n % 10)]
  }

  function Digit(d: nat): (c: char)
    requires d < 10
    ensures '0' <= c <= '9' && c as int - '0' as int == d
  {
    ('0' as int + d) as char
  }

  /** Reading decimal digits back. */
  function ParseDecimal(s: string): nat
    requires forall i :: 0 <= i < |s| ==> '0' <= s[i] <= '9'
  {
    if s == [] then 0 else ParseDecimal(s[..|s| - 1]) * 10 + (s[|s| - 1] as int - '0' as int)
  }

  /** The decimal text of a number reads back as that number, so distinct
      block sizes give distinct option entries. */
  lemma {:induction false} ParseNatToString(n: nat)
    ensures ParseDecimal(NatToString(n)) == n
    decreases n
  {
    var s := NatToString(n);
    if n >= 10 {
      ParseNatToString(n / 10);
      assert s[..|s| - 1] == NatToString(n / 10);
    }
  }

  // ---------------------------------------------------------------------
  // _init_raster_parameters

  /** The `compress` argument: a boolean or a string (only 'high' is told
      apart; any other non-empty string is truthy). */
  datatype CompressArg = CompressFlag(flag: bool) | CompressName(name: string)

  predicate Truthy(c: CompressArg) {
    match c
    case CompressFlag(b) => b
    case CompressName(n) => n != ""
  }

  /** What `_init_raster_parameters` reads from the machine: the CPU count
      and whether the GDAL bindings are version 2.1 or later. */
  datatype Env = Env(cpuCount: nat, gdal21: bool)

  /** `os.cpu_count() - 1`, at least one. */
  function Jobs(cpuCount: nat): (n: nat)
    ensures n >= 1 && n >= cpuCount - 1 && (cpuCount >= 2 ==> n == cpuCount - 1)
    ensures cpuCount < 2 ==> n == 1
  {
    if cpuCount < 2 then 1 else cpuCount - 1
  }

  function ThreadsEntry(env: Env): string {
    "NUM_THREADS=" + NatToString(Jobs(env.cpuCount))
  }

  /** The default options: BIGTIFF=IF_NEEDED without compression; otherwise
      BIGTIFF=IF_SAFER, the thread count on GDAL 2.1 and later, and DEFLATE
      with predictor 2 and level 9 for 'high', PACKBITS for any other truthy
      value. */
  function InitOptions(compress: CompressArg, env: Env): (o: seq<string>)
    ensures !Truthy(compress) <==> o == ["BIGTIFF=IF_NEEDED"]
    ensures |o| >= 1 && (Truthy(compress) ==> o[0] == "BIGTIFF=IF_SAFER")
    ensures (ThreadsEntry(env) in o) <==> Truthy(compress) && env.gdal21
    ensures ("COMPRESS=DEFLATE" in o) <==> compress == CompressName("high")
    ensures ("PREDICTOR=2" in o && "ZLEVEL=9" in o) <==> compress == CompressName("high")
    ensures ("COMPRESS=PACKBITS" in o) <==> Truthy(compress) && compress != CompressName("high")
  {
    var threads := ThreadsEntry(env);
    assert threads[0] == 'N';
    if !Truthy(compress) then ["BIGTIFF=IF_NEEDED"]
    else if compress == CompressName("high") then
      ["BIGTIFF=IF_SAFER"] + (if env.gdal21 then [threads] else []) + ["COMPRESS=DEFLATE", "PREDICTOR=2", "ZLEVEL=9"]
    else ["BIGTIFF=IF_SAFER"] + (if env.gdal21 then [threads] else []) + ["COMPRESS=PACKBITS"]
  }

  predicate HasCompress(o: seq<string>) {
    exists v :: v in o && StartsWith(v, "compress")
  }

  /** `params.index(next(x for x in params if x.startswith('compress')))`:
      the position of the first entry that starts with 'compress'. */
  function FirstCompress(o: seq<string>): (j: nat)
    requires HasCompress(o)
    ensures j < |o| && StartsWith(o[j], "compress")
    ensures forall i :: 0 <= i < j ==> !StartsWith(o[i], "compress")
  {
    if StartsWith(o[0], "compress") then 0
    else
      var v :| v in o && StartsWith(v, "compress");
      assert v in o[1..];
      1 + FirstCompress(o[1..])
  }

  /** `params.pop(params.index(arg_pos))` for the first entry that starts
      with the lower-case word 'compress': exactly that entry goes, and the
      others keep their order. */
  function DropFirstCompress(o: seq<string>): (r: seq<string>)
    ensures !HasCompress(o) ==> r == o
    ensures HasCompress(o) ==> r == o[..FirstCompress(o)] + o[FirstCompress(o) + 1..]
    ensures HasCompress(o) ==> |r| == |o| - 1
    ensures forall v :: v in r ==> v in o
  {
    if o == [] then []
    else if StartsWith(o[0], "compress") then o[1..]
    else
      var rest := DropFirstCompress(o[1..]);
      assert HasCompress(o) ==> HasCompress(o[1..]) by {
        if HasCompress(o) {
          var v :| v in o && StartsWith(v, "compress");
          assert v in o[1..];
        }
      }
      assert HasCompress(o[1..]) ==> HasCompress(o) by {
        if HasCompress(o[1..]) {
          var v :| v in o[1..] && StartsWith(v, "compress");
          assert v in o;
        }
      }
      assert HasCompress(o) ==> [o[0]] + rest == o[..FirstCompress(o)] + o[FirstCompress(o) + 1..] by {
        if HasCompress(o) {
          var j := FirstCompress(o[1..]);
          assert FirstCompress(o) == j + 1;
          assert o[..j + 1] == [o[0]] + o[1..][..j];
          assert o[j + 2..] == o[1..][j + 1..];
        }
      }
      [o[0]] + rest
  }

  // ---------------------------------------------------------------------
  // _managed_raster_parameters

  /** `v.upper().startswith(word)`, character by character. */
  predicate StartsWithUpper(v: string, word: string) {
    |word| <= |v| && forall i :: 0 <= i < |word| ==> UpperChar(v[i]) == word[i]
  }

  lemma StartsWithUpperIsUpper(v: string, word: string)
    ensures StartsWithUpper(v, word) <==> StartsWith(Upper(v), word)
  {
    if |word| <= |v| {
      var u := Upper(v);
      if StartsWith(u, word) {
        forall i | 0 <= i < |word|
          ensures UpperChar(v[i]) == word[i]
        {
          assert u[..|word|][i] == u[i];
        }
      }
    }
  }

  /** Entries that `_managed_raster_parameters` owns, compared ignoring case. */
  predicate IsManaged(v: string) {
    StartsWithUpper(v, "BLOCKYSIZE") || StartsWithUpper(v, "BLOCKXSIZE") || StartsWithUpper(v, "TILED")
  }

  /** The list comprehension of `_managed_raster_parameters`: the entries it
      does not own, in their order. */
  function Unmanaged(o: seq<string>): (r: seq<string>)
    ensures forall v :: v in r <==> v in o && !IsManaged(v)
    ensures |r| <= |o|
  {
    if o == [] then []
    else if IsManaged(o[0]) then Unmanaged(o[1..])
    else [o[0]] + Unmanaged(o[1..])
  }

  /** Which entries the comprehension of `_managed_raster_parameters` drops. */
  function ManagedFlags(o: seq<string>): (flags: seq<bool>)
    ensures |flags| == |o| && forall i :: 0 <= i < |o| ==> flags[i] == IsManaged(o[i])
  {
    seq(|o|, i requires 0 <= i < |o| => IsManaged(o[i]))
  }

  /** The comprehension keeps the unmanaged entries as a row filter does:
      the same entries, each as often as it occurs, in the same order. */
  lemma {:induction false} UnmanagedIsKeep(o: seq<string>)
    ensures Unmanaged(o) == Keep(o, ManagedFlags(o))
  {
    if o != [] {
      UnmanagedIsKeep(o[1..]);
      assert ManagedFlags(o)[1..] == ManagedFlags(o[1..]);
    }
  }

  /** The unmanaged entry at position `i` sits in the result at its rank
      among the unmanaged entries, and the result holds exactly as many
      entries as there are unmanaged ones. */
  lemma UnmanagedAt(o: seq<string>, i: nat)
    requires i < |o| && !IsManaged(o[i])
    ensures |Unmanaged(o)| == CountUnmasked(ManagedFlags(o))
    ensures CountUnmasked(ManagedFlags(o)[..i]) < |Unmanaged(o)|
    ensures Unmanaged(o)[CountUnmasked(ManagedFlags(o)[..i])] == o[i]
  {
    UnmanagedIsKeep(o);
    KeepAt(o, ManagedFlags(o), i);
  }

  /** The block sizes GeoTIFF tiles with. */
  const TileSizes: seq<nat> := [64, 128, 256, 512, 1024, 2048, 4096]

  function BlockEntries(xBlock: nat, yBlock: nat): (e: seq<string>)
    ensures |e| == 2 || |e| == 3
  {
    ["BLOCKYSIZE=" + NatToString(yBlock), "BLOCKXSIZE=" + NatToString(xBlock)]
    + (if yBlock == xBlock && yBlock in TileSizes then ["TILED=YES"] else [])
  }

  /** The options after `_managed_raster_parameters`. */
  function ManagedOptions(o: seq<string>, xBlock: nat, yBlock: nat): (r: seq<string>)
  {
    Unmanaged(o) + BlockEntries(xBlock, yBlock)
  }

  /** Every entry it appends is one it owns. */
  lemma BlockEntriesManaged(xBlock: nat, yBlock: nat)
    ensures forall v :: v in BlockEntries(xBlock, yBlock) ==> IsManaged(v)
  {
    ManagedEntry("BLOCKYSIZE=", NatToString(yBlock), "BLOCKYSIZE");
    ManagedEntry("BLOCKXSIZE=", NatToString(xBlock), "BLOCKXSIZE");
    ManagedEntry("TILED=YES", "", "TILED");
  }

  lemma ManagedEntry(key: string, digits: string, word: string)
    requires forall i :: 0 <= i < |key| ==> !('a' <= key[i] <= 'z')
    requires forall i :: 0 <= i < |digits| ==> '0' <= digits[i] <= '9'
    requires StartsWith(key, word)
    ensures StartsWithUpper(key + digits, word)
  {
    UpperAppend(key, digits);
    UpperOfUpper(key);
    UpperOfUpper(digits);
    assert (key + digits)[..|word|] == key[..|word|];
    StartsWithUpperIsUpper(key + digits, word);
  }

  lemma {:induction false} UnmanagedOfManaged(o: seq<string>, e: seq<string>)
    requires forall v :: v in e ==> IsManaged(v)
    ensures Unmanaged(o + e) == Unmanaged(o)
  {
    if o == [] {
      UnmanagedAllManaged(e);
      assert o + e == e;
    } else {
      assert (o + e)[1..] == o[1..] + e;
      UnmanagedOfManaged(o[1..], e);
    }
  }

  lemma {:induction false} UnmanagedAllManaged(e: seq<string>)
    requires forall v :: v in e ==> IsManaged(v)
    ensures Unmanaged(e) == []
  {
    if e != [] {
      assert e[0] in e;
      UnmanagedAllManaged(e[1..]);
    }
  }

  /** The user's other entries survive, in order, ahead of the block-size
      entries, and the suffix is exactly the managed entries. */
  lemma ManagedOptionsShape(o: seq<string>, xBlock: nat, yBlock: nat)
    ensures var r := ManagedOptions(o, xBlock, yBlock);
      && r[..|Unmanaged(o)|] == Unmanaged(o)
      && (forall v :: v in r && IsManaged(v) <==> v in BlockEntries(xBlock, yBlock))
      && r[|Unmanaged(o)|] == "BLOCKYSIZE=" + NatToString(yBlock)
      && r[|Unmanaged(o)| + 1] == "BLOCKXSIZE=" + NatToString(xBlock)
  {
    BlockEntriesManaged(xBlock, yBlock);
  }

  /** TILED=YES is present exactly for square power-of-two blocks from 64 to
      4096, whatever TILED entries the options held before. */
  lemma ManagedTiled(o: seq<string>, xBlock: nat, yBlock: nat)
    ensures "TILED=YES" in ManagedOptions(o, xBlock, yBlock) <==> xBlock == yBlock && yBlock in TileSizes
  {
    BlockEntriesManaged(xBlock, yBlock);
    var e := BlockEntries(xBlock, yBlock);
    assert "TILED=YES" in e <==> xBlock == yBlock && yBlock in TileSizes by {
      assert e[0][0] == 'B' && e[1][0] == 'B';
    }
  }

  /** Managing the options twice with the same block size changes nothing. */
  lemma ManagedIdempotent(o: seq<string>, xBlock: nat, yBlock: nat)
    ensures ManagedOptions(ManagedOptions(o, xBlock, yBlock), xBlock, yBlock) == ManagedOptions(o, xBlock, yBlock)
  {
    BlockEntriesManaged(xBlock, yBlock);
    UnmanagedOfManaged(Unmanaged(o), BlockEntries(xBlock, yBlock));
    UnmanagedTwice(o);
  }

  lemma {:induction false} UnmanagedTwice(o: seq<string>)
    ensures Unmanaged(Unmanaged(o)) == Unmanaged(o)
  {
    if o != [] {
      UnmanagedTwice(o[1..]);
    }
  }

  /** None of the default options is one `_managed_raster_parameters` owns,
      so they all survive it. */
  lemma InitOptionsUnmanaged(compress: CompressArg, env: Env)
    ensures Unmanaged(InitOptions(compress, env)) == InitOptions(compress, env)
  {
    var o := InitOptions(compress, env);
    assert ThreadsEntry(env)[0] == 'N' && ThreadsEntry(env)[1] == 'U';
    forall v | v in o
      ensures !IsManaged(v)
    {
      HeadNotManaged(v);
    }
    UnmanagedKeeps(o);
  }

  /** An entry whose first two characters are upper case and are neither
      "BL" nor start with "T" is not owned. */
  lemma HeadNotManaged(v: string)
    requires |v| >= 2 && 'A' <= v[0] <= 'Z' && 'A' <= v[1] <= 'Z'
    requires v[0] != 'T' && (v[0] != 'B' || v[1] != 'L')
    ensures !IsManaged(v)
  {
    assert UpperChar(v[0]) == v[0] && UpperChar(v[1]) == v[1];
  }

  lemma {:induction false} UnmanagedKeeps(o: seq<string>)
    requires forall v :: v in o ==> !IsManaged(v)
    ensures Unmanaged(o) == o
  {
    if o != [] {
      assert o[0] in o;
      UnmanagedKeeps(o[1..]);
    }
  }
}
