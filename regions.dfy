/**
 * Region selectors of a partial restore and the storage path of the region
 * file each one names: `dimensions[dimension] + "r.<x>.<z>.mca"`.
 */
module Regions {
  import opened Base

  datatype Dimension = Overworld | Nether | End

  /** A region of one dimension, by region coordinates. */
  datatype Region = Region(dimension: Dimension, x: int, z: int)

  /** The `dimensions` record: the folder holding a dimension's region files. */
  function Folder(d: Dimension): string {
    match d
    case Overworld => "world/region/"
    case Nether => "world/DIM-1/region/"
    case End => "world/DIM1/region/"
  }

  /** Decimal digits of `n` without leading zeros. */
  function NatText(n: nat): (r: string)
    ensures |r| > 0
    ensures forall i :: 0 <= i < |r| ==> IsDigit(r[i])
    decreases n
  {
    if n < 10 then [Digit(n)] else NatText(n / 10) + [Digit(n % 10)]
  }

  /** `String(n)` for an integer `n`. */
  function IntText(n: int): (r: string)
    ensures |r| > 0 && '.' !in r
  {
    if n < 0 then "-" + NatText(-n) else NatText(n)
  }

  /** The value of a string of decimal digits. */
  function ParseNat(s: string): nat
    decreases |s|
  {
    if |s| == 0 then 0
    else var c := s[|s| - 1];
      10 * ParseNat(s[..|s| - 1]) + (if IsDigit(c) then (c as int) - ('0' as int) else 0)
  }

  /** The value of an optionally signed string of decimal digits. */
  function ParseInt(s: string): int {
    if |s| > 0 && s[0] == '-' then 0 - ParseNat(s[1..]) else ParseNat(s)
  }

  lemma {:induction false} ParseNatText(n: nat)
    ensures ParseNat(NatText(n)) == n
    decreases n
  {
    if n >= 10 {
      ParseNatText(n / 10);
      var s := NatText(n);
      assert s[..|s| - 1] == NatText(n / 10);
    }
  }

  /** `IntText` is undone by `ParseInt`, so distinct integers print differently. */
  lemma ParseIntText(n: int)
    ensures ParseInt(IntText(n)) == n
  {
    if n < 0 {
      ParseNatText(-n);
      assert IntText(n)[1..] == NatText(-n);
    } else {
      ParseNatText(n);
    }
  }

  /** The region file name `r.<x>.<z>.mca`. */
  function RegionFile(x: int, z: int): string {
    "r." + IntText(x) + "." + IntText(z) + ".mca"
  }

  /** The storage path restored for one region. */
  function RegionPath(r: Region): string {
    Folder(r.dimension) + RegionFile(r.x, r.z)
  }

  /** The index of the first `c` in `s`. */
  function FirstIndex(s: string, c: char): (r: Option<nat>)
    ensures r.Some? ==> r.value < |s| && s[r.value] == c && c !in s[..r.value]
    ensures r.None? ==> c !in s
    decreases |s|
  {
    if |s| == 0 then None
    else if s[0] == c then Some(0)
    else match FirstIndex(s[1..], c)
      case None => None
      case Some(k) => Some(k + 1)
  }

  function FolderOf(p: string): Option<Dimension> {
    if |p| >= 19 && p[..19] == Folder(Nether) then Some(Nether)
    else if |p| >= 18 && p[..18] == Folder(End) then Some(End)
    else if |p| >= 13 && p[..13] == Folder(Overworld) then Some(Overworld)
    else None
  }

  /** Reads a storage path back into the region it names, if it names one. */
  function ParseRegionPath(p: string): Option<Region> {
    match FolderOf(p)
    case None => None
    case Some(d) =>
      var file := p[|Folder(d)|..];
      if |file| < 6 || file[..2] != "r." || file[|file| - 4..] != ".mca" then None
      else
        var coords := file[2..|file| - 4];
        match FirstIndex(coords, '.')
        case None => None
        case Some(k) => Some(Region(d, ParseInt(coords[..k]), ParseInt(coords[k + 1..])))
  }

  lemma FolderOfRegionPath(r: Region)
    ensures FolderOf(RegionPath(r)) == Some(r.dimension)
  {
    var p := RegionPath(r);
    assert p[..|Folder(r.dimension)|] == Folder(r.dimension);
    match r.dimension
    case Overworld =>
      assert p[6] == 'r';
      assert |p| < 19 || p[..19][6] != Folder(Nether)[6];
      assert |p| < 18 || p[..18][6] != Folder(End)[6];
    case Nether =>
    case End =>
      assert p[9] == '1';
      assert |p| < 19 || p[..19][9] != Folder(Nether)[9];
  }

  /** Every region path parses back to its region: the mapping loses nothing. */
  lemma ParseRegionPathInverts(r: Region)
    ensures ParseRegionPath(RegionPath(r)) == Some(r)
  {
    FolderOfRegionPath(r);
    var p := RegionPath(r);
    var a, b := IntText(r.x), IntText(r.z);
    var file := p[|Folder(r.dimension)|..];
    assert file == RegionFile(r.x, r.z);
    assert file == "r." + (a + "." + b) + ".mca";
    var coords := file[2..|file| - 4];
    assert file[..2] == "r." && file[|file| - 4..] == ".mca";
    assert coords == a + "." + b;
    var k := |a|;
    assert coords[k] == '.' && coords[..k] == a && coords[k + 1..] == b;
    assert FirstIndex(coords, '.') == Some(k);
    ParseIntText(r.x);
    ParseIntText(r.z);
  }

  /** Distinct regions name distinct paths. */
  lemma RegionPathInjective(r1: Region, r2: Region)
    requires RegionPath(r1) == RegionPath(r2)
    ensures r1 == r2
  {
    ParseRegionPathInverts(r1);
    ParseRegionPathInverts(r2);
  }

  /** The `regionPaths` loop of a partial restore: one path per region, in order. */
  method RegionPaths(regions: seq<Region>) returns (paths: seq<string>)
    ensures |paths| == |regions|
    ensures forall i :: 0 <= i < |regions| ==> paths[i] == RegionPath(regions[i])
  {
    paths := [];
    var i := 0;
    while i < |regions|
      invariant 0 <= i <= |regions|
      invariant |paths| == i
      invariant forall j :: 0 <= j < i ==> paths[j] == RegionPath(regions[j])
    {
      paths := paths + [RegionPath(regions[i])];
      i := i + 1;
    }
  }
}
