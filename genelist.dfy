/** Building the gene set from the lines of the gene-list file. */
module GeneList {

  /** No symbol occurs twice. */
  predicate Distinct(lines: seq<string>)
  {
    forall i, j :: 0 <= i < j < |lines| ==> lines[i] != lines[j]
  }

  /** Inserts every line, an empty one included, into a set: the set holds
      exactly the lines, repeated lines collapse into one member, and lines
      that are all different give one member each. */
  method ParseGeneList(lines: seq<string>) returns (geneSet: set<string>)
    ensures forall g :: g in geneSet <==> g in lines
    ensures |geneSet| <= |lines|
    ensures Distinct(lines) ==> |geneSet| == |lines|
  {
    geneSet := {};
    for i := 0 to |lines|
      invariant forall g :: g in geneSet <==> g in lines[..i]
      invariant |geneSet| <= i
      invariant Distinct(lines[..i]) ==> |geneSet| == i
    {
      assert lines[..i + 1] == lines[..i] + [lines[i]];
      assert Distinct(lines[..i + 1]) ==> lines[i] !in geneSet;
      geneSet := geneSet + {lines[i]};
    }
    assert lines[..|lines|] == lines;
  }
}
