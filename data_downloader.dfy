/**
 * The request description of SourceCode/DataDownloader.py: an Argument, the cache
 * file name built from it, and the prefixing of column names with the data-set id.
 */
module DataDownloader {
  import opened Strings
  import opened Wrappers

  /** The columns dropped from Google Finance data when no drop list is given. */
  const DefaultDrop: seq<string> := ["High", "Low", "Open", "Volume", "Adjusted Close", ""]

  /** What a path would treat as a separator, replaced in cache file names. */
  predicate IsSeparator(c: char) {
    c == '/' || c == '\\'
  }

  /** A character of a cache file name: separators become '-', everything else stays. */
  function Dash(c: char): char {
    if IsSeparator(c) then '-' else c
  }

  /** `s` with every separator turned into '-', character for character. */
  function Dashed(s: string): (r: string)
    ensures |r| == |s|
    ensures forall i :: 0 <= i < |s| ==> r[i] == Dash(s[i])
  {
    seq(|s|, i requires 0 <= i < |s| => Dash(s[i]))
  }

  /** Dashing a concatenation dashes each part. */
  lemma DashedAppend(a: string, b: string)
    ensures Dashed(a + b) == Dashed(a) + Dashed(b)
  {
    var l, r := Dashed(a + b), Dashed(a) + Dashed(b);
    forall i | 0 <= i < |l| ensures l[i] == r[i] {
      if i < |a| { assert (a + b)[i] == a[i]; } else { assert (a + b)[i] == b[i - |a|]; }
    }
  }

  /** Text without separators is left as it is. */
  lemma DashedNoSeparator(s: string)
    requires forall i :: 0 <= i < |s| ==> !IsSeparator(s[i])
    ensures Dashed(s) == s
  {
  }

  class Argument {
    var id: string
    var start: string
    var end: string
    var transformation: string
    var collapse: string
    var prefix: Option<string>
    var drop: seq<string>

    /** `__init__`: stores the fields; `rdiff` becomes the transformation; no drop list means the default one. */
    constructor (id: string, start: string, end: string, prefix: Option<string> := None,
                 drop: Option<seq<string>> := None, rdiff: string := "none", collapse: string := "none")
      ensures this.id == id && this.start == start && this.end == end
      ensures this.transformation == rdiff && this.collapse == collapse && this.prefix == prefix
      ensures this.drop == if drop.None? then DefaultDrop else drop.value
    {
      this.id := id;
      this.start := start;
      this.end := end;
      this.transformation := rdiff;
      this.collapse := collapse;
      this.prefix := prefix;
      this.drop := if drop.None? then DefaultDrop else drop.value;
    }

    /**
     * `to_string`: the cache file name. It starts with "Cache id=", ends with ".csv",
     * holds no path separator, and replacing separators one character for one keeps
     * the length of the text it was built from.
     */
    function ToString(): (key: string)
      reads this
      ensures |key| == 32 + |id| + |start| + |end| + |transformation|
      ensures key[..9] == "Cache id=" && key[|key| - 4..] == ".csv"
      ensures forall i :: 0 <= i < |key| ==> !IsSeparator(key[i])
    {
      var uniqueId := "Cache" + " id=" + id + " start=" + start + " end=" + end + " trans=" + transformation + ".csv";
      Replace(Replace(uniqueId, '\\', '-'), '/', '-')
    }
  }

  /**
   * The cache file name is the plain concatenation of the fields, with every
   * separator in them turned into '-' and every other character kept.
   */
  lemma KeyText(a: Argument)
    ensures a.ToString() ==
      "Cache id=" + Dashed(a.id) + " start=" + Dashed(a.start) + " end=" + Dashed(a.end) +
      " trans=" + Dashed(a.transformation) + ".csv"
  {
    var raw := "Cache" + " id=" + a.id + " start=" + a.start + " end=" + a.end + " trans=" + a.transformation + ".csv";
    assert a.ToString() == Dashed(raw) by {
      var k, d := a.ToString(), Dashed(raw);
      forall i | 0 <= i < |k| ensures k[i] == d[i] {
        assert k[i] == Dash(raw[i]);
      }
    }
    var p1 := "Cache id=" + a.id;
    var p2 := p1 + " start=" + a.start;
    var p3 := p2 + " end=" + a.end;
    var p4 := p3 + " trans=" + a.transformation;
    assert raw == p4 + ".csv";
    DashedAppend(p4, ".csv");
    DashedAppend(p3 + " trans=", a.transformation);
    DashedAppend(p3, " trans=");
    DashedAppend(p2 + " end=", a.end);
    DashedAppend(p2, " end=");
    DashedAppend(p1 + " start=", a.start);
    DashedAppend(p1, " start=");
    DashedAppend("Cache id=", a.id);
    DashedNoSeparator("Cache id=");
    DashedNoSeparator(" start=");
    DashedNoSeparator(" end=");
    DashedNoSeparator(" trans=");
    DashedNoSeparator(".csv");
  }

  /** When no field holds a separator, the cache file name is the plain concatenation. */
  lemma KeyVerbatim(a: Argument)
    requires forall i :: 0 <= i < |a.id| ==> !IsSeparator(a.id[i])
    requires forall i :: 0 <= i < |a.start| ==> !IsSeparator(a.start[i])
    requires forall i :: 0 <= i < |a.end| ==> !IsSeparator(a.end[i])
    requires forall i :: 0 <= i < |a.transformation| ==> !IsSeparator(a.transformation[i])
    ensures a.ToString() == "Cache id=" + a.id + " start=" + a.start + " end=" + a.end + " trans=" + a.transformation + ".csv"
  {
    KeyText(a);
    DashedNoSeparator(a.id);
    DashedNoSeparator(a.start);
    DashedNoSeparator(a.end);
    DashedNoSeparator(a.transformation);
  }

  /** The cache file name depends on the id, the dates and the transformation only. */
  lemma KeyIgnoresOtherFields(a: Argument, b: Argument)
    requires a.id == b.id && a.start == b.start && a.end == b.end && a.transformation == b.transformation
    ensures a.ToString() == b.ToString()
  {
  }

  /**
   * The renaming loop of `get_data_sets`: column i of a data set becomes
   * id + "_" + its old name, keeping the number and order of columns.
   */
  method RenameColumns(id: string, columns: seq<string>) returns (newColumns: seq<string>)
    ensures |newColumns| == |columns|
    ensures forall i :: 0 <= i < |columns| ==> newColumns[i] == id + "_" + columns[i]
  {
    newColumns := [];
    for i := 0 to |columns|
      invariant |newColumns| == i
      invariant forall k :: 0 <= k < i ==> newColumns[k] == id + "_" + columns[k]
    {
      newColumns := newColumns + [id + "_" + columns[i]];
    }
  }

  /** Prefixing with the same id keeps distinct column names distinct. */
  lemma RenamingInjective(id: string, a: string, b: string)
    requires id + "_" + a == id + "_" + b
    ensures a == b
  {
    var p := id + "_";
    assert (p + a)[|p|..] == a && (p + b)[|p|..] == b;
  }
}
