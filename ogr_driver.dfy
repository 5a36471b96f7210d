/** `get_ogr_driver_from_filename`: the OGR driver named by a file extension,
    with `os.path.splitext` (POSIX separators) modelled on strings. */
module OgrDriver {
  import opened Outcomes

  const Extensions: seq<string> := ["sqlite", "shp", "netcdf", "gpx", "gpkg"]
  const DriverNames: seq<string> := ["SQLITE", "ESRI Shapefile", "netCDF", "GPX", "GPKG"]

  /** Position of the last `c` in `s`, or -1. */
  function RFind(s: string, c: char): (r: int)
    ensures -1 <= r < |s|
    ensures r >= 0 ==> s[r] == c
    ensures forall k :: r < k < |s| ==> s[k] != c
  {
    if |s| == 0 then -1
    else if s[|s| - 1] == c then |s| - 1
    else RFind(s[..|s| - 1], c)
  }

  /** True when some character of s[lo..hi] is not a dot. */
  predicate HasNonDot(s: string, lo: nat, hi: nat)
    requires lo <= hi <= |s|
  {
    exists k :: lo <= k < hi && s[k] != '.'
  }

  /** `os.path.splitext(p)`: the extension starts at the last dot of the last
      path component, unless everything before that dot in the component is
      dots (such a name has no extension). */
  function SplitExt(p: string): (r: (string, string))
    ensures r.0 + r.1 == p
    ensures r.1 == "" || r.1[0] == '.'
    ensures forall k :: 0 <= k < |r.1| ==> r.1[k] != '/'
  {
    var sep := RFind(p, '/');
    var dot := RFind(p, '.');
    if dot > sep && HasNonDot(p, sep + 1, dot) then
      assert p[..dot] + p[dot..] == p;
      (p[..dot], p[dot..])
    else (p, "")
  }

  /** Position of `x` in `s`, if any. */
  function IndexOf(s: seq<string>, x: string): (i: nat)
    requires x in s
    ensures i < |s| && s[i] == x
    ensures forall k :: 0 <= k < i ==> s[k] != x
  {
    if s[0] == x then 0 else 1 + IndexOf(s[1..], x)
  }

  /** The driver of the first listed extension equal to the file's extension
      without its dot; any other extension raises the `Warning`. */
  function GetOgrDriverFromFilename(fileName: string): (r: Result<string>)
    ensures var ext := SplitExt(fileName).1;
      r.Err? <==> (ext == "" || ext[1..] !in Extensions)
    ensures r.Err? ==> r.error == UnknownExtension
    ensures r.Ok? ==> r.value in DriverNames
  {
    var ext := SplitExt(fileName).1;
    var key := if ext == "" then "" else ext[1..];
    if key !in Extensions then Err(UnknownExtension)
    else Ok(DriverNames[IndexOf(Extensions, key)])
  }

  /** A name ending in a dot and a listed extension, after a stem whose last
      character is neither a separator nor a dot, selects that extension's
      driver. */
  lemma {:induction false} DriverOfNamedExtension(stem: string, k: nat)
    requires k < |Extensions|
    requires |stem| > 0 && stem[|stem| - 1] != '/' && stem[|stem| - 1] != '.'
    ensures GetOgrDriverFromFilename(stem + "." + Extensions[k]) == Ok(DriverNames[k])
  {
    var e := Extensions[k];
    var p := stem + "." + e;
    assert forall j :: 0 <= j < |e| ==> e[j] != '.' && e[j] != '/';
    var dot := |stem|;
    assert p[dot] == '.';
    assert forall j :: dot < j < |p| ==> p[j] == e[j - dot - 1];
    assert RFind(p, '.') == dot by {
      RFindLast(p, '.', dot);
    }
    var sep := RFind(p, '/');
    assert p[dot - 1] == stem[|stem| - 1];
    assert sep < dot - 1;
    assert p[dot - 1] != '.';
    assert HasNonDot(p, sep + 1, dot);
    assert SplitExt(p).1 == p[dot..];
    assert p[dot..][1..] == e;
    assert IndexOf(Extensions, e) == k;
  }

  /** If `c` is at `i` and never after it, RFind finds `i`. */
  lemma RFindLast(s: string, c: char, i: nat)
    requires i < |s| && s[i] == c
    requires forall j :: i < j < |s| ==> s[j] != c
    ensures RFind(s, c) == i
  {
  }

  /** The first example of the docstring: a GeoPackage. */
  lemma GpkgExample()
    ensures GetOgrDriverFromFilename("goVegan.gpkg") == Ok("GPKG")
  {
    var stem := "goVegan";
    assert stem + "." + Extensions[4] == "goVegan.gpkg";
    DriverOfNamedExtension(stem, 4);
  }

  /** The second example of the docstring: a shapefile. */
  lemma ShpExample()
    ensures GetOgrDriverFromFilename("stopEatingAnimals.shp") == Ok("ESRI Shapefile")
  {
    var stem := "stopEatingAnimals";
    assert stem + "." + Extensions[1] == "stopEatingAnimals.shp";
    DriverOfNamedExtension(stem, 1);
  }
}
