/** Extraction of the coding (`c.`) and protein (`p.`) notation from the
    free-text `Name` column, for the one vendor format the filter targets:
    `transcript:c.XXX (p.YYY)` or `transcript:c.XXX`. */
module Notation {

  import opened Wrappers
  import opened Text

  /** What the parser finds in a name: no coding change at all, a coding
      change only, or a coding change with a protein change. */
  datatype Notation =
    | NonCoding
    | Coding(cDot: string)
    | CodingProtein(cDot: string, pDot: string)

  /** A name whose body mentions `p.` but has no `(` to split it at. */
  datatype NotationError = NotationFormatError(name: string)

  /** The notation body of a name: the piece after the first `:` up to the
      next `:` (or the end), or the whole name when it has no `:` at all. */
  function NotationBody(name: string): (body: string)
    ensures ':' !in body
    ensures ':' !in name ==> body == name
    ensures ':' in name ==>
              var i := IndexOf(name, ':');
              body <= name[i + 1..] && (i + 1 + |body| == |name| || name[i + 1 + |body|] == ':')
  {
    var fields := Split(name, ':');
    if |fields| > 1 then fields[1] else fields[0]
  }

  /** The body is what lies between the first and the second `:`: a prefix
      without `:`, then `:`, then the body, then nothing or a tail starting
      with `:`. */
  lemma BodyBetweenColons(prefix: string, body: string, tail: string)
    requires ':' !in prefix && ':' !in body
    requires tail == [] || tail[0] == ':'
    ensures NotationBody(prefix + [':'] + body + tail) == body
  {
    var s := prefix + [':'] + body + tail;
    assert s[|prefix|] == ':';
    assert s[..|prefix|] == prefix;
    assert IndexOf(s, ':') == |prefix|;
    var t := s[|prefix| + 1..];
    assert t == body + tail;
    var b := NotationBody(s);
    assert b == Split(t, ':')[0];
    assert forall k :: 0 <= k < |body| ==> t[k] == body[k];
    assert |body| < |t| ==> t[|body|] == ':';
    assert forall k :: 0 <= k < |b| ==> t[k] == b[k];
    assert b == t[..|b|] == body;
  }

  /** The notation parser. A name without `c.` has no coding notation. Otherwise
      its body is either split at its first `(` into the coding part and the
      protein part with every `)` deleted (when it mentions `p.`), or taken
      whole as the coding part. A body that mentions `p.` without any `(` is a
      format error carrying the name. */
  function ParseNotation(name: string): (r: Result<Notation, NotationError>)
    ensures !Contains(name, "c.") ==> r == Ok(NonCoding)
    ensures Contains(name, "c.") && !Contains(NotationBody(name), "p.") ==>
              r == Ok(Coding(NotationBody(name)))
    ensures r.Err? <==>
              Contains(name, "c.") && Contains(NotationBody(name), "p.") && '(' !in NotationBody(name)
    ensures r.Err? ==> r.error == NotationFormatError(name)
    ensures Contains(name, "c.") && Contains(NotationBody(name), "p.") && '(' in NotationBody(name) ==>
              r.Ok? && r.value.CodingProtein?
    ensures r.Ok? && r.value.CodingProtein? ==>
              && Contains(NotationBody(name), "p.")
              && r.value.cDot + "(" <= NotationBody(name)
              && '(' !in r.value.cDot
              && r.value.pDot == RemoveAll(NotationBody(name)[|r.value.cDot| + 1..], ')')
              && ')' !in r.value.pDot
  {
    if !Contains(name, "c.") then Ok(NonCoding)
    else
      var body := NotationBody(name);
      if Contains(body, "p.") then
        match SplitOnce(body, '(')
        case None => Err(NotationFormatError(name))
        case Some((cDot, protein)) =>
          assert body[|cDot| + 1..] == protein;
          Ok(CodingProtein(cDot, RemoveAll(protein, ')')))
      else
        Ok(Coding(body))
  }

  /** A name with `c.` whose body has `p.` and `(` is the protein case; in it
      the coding part, `(` and the unfiltered protein part make up the body
      exactly, and every character but `)` of the protein part survives. */
  lemma CodingProteinSplit(name: string)
    requires Contains(name, "c.") && Contains(NotationBody(name), "p.") && '(' in NotationBody(name)
    ensures ParseNotation(name).Ok? && ParseNotation(name).value.CodingProtein?
    ensures var n := ParseNotation(name).value;
            var rest := NotationBody(name)[|n.cDot| + 1..];
            && n.cDot + "(" + rest == NotationBody(name)
            && (forall x :: x != ')' ==> multiset(n.pDot)[x] == multiset(rest)[x])
  {
    var n := ParseNotation(name).value;
    var body := NotationBody(name);
    assert body == body[..|n.cDot| + 1] + body[|n.cDot| + 1..];
    RemoveAllKeepsOthers(body[|n.cDot| + 1..], ')');
  }

  /** The converse of the protein case: a name with `c.` whose body is a
      coding part without `(`, then `(`, then a protein part, with `p.`
      somewhere, parses to that coding part and the protein part with its
      `)` deleted. */
  lemma ParseCodingProteinAt(name: string, coding: string, protein: string)
    requires Contains(name, "c.")
    requires NotationBody(name) == coding + "(" + protein
    requires '(' !in coding && Contains(coding + "(" + protein, "p.")
    ensures ParseNotation(name) == Ok(CodingProtein(coding, RemoveAll(protein, ')')))
  {
    SplitOnceAt(coding, '(', protein);
  }

  /** A name `transcript:body` whose body starts with `c.` and has no `:`
      has that body and counts as coding. */
  lemma CodingAfterTranscript(transcript: string, body: string)
    requires ':' !in transcript
    requires "c." <= body && ':' !in body
    ensures NotationBody(transcript + ":" + body) == body
    ensures Contains(transcript + ":" + body, "c.")
  {
    var name := transcript + ":" + body;
    assert name == transcript + [':'] + body + [];
    BodyBetweenColons(transcript, body, []);
    assert OccursAt(body, "c.", 0);
    ContainsIff(body, "c.");
    ContainsInConcat(transcript + ":", body, "c.");
  }

  /** The vendor format `transcript:c.XXX (p.YYY)` parses to `c.XXX ` (with
      any space before the `(`) and `p.YYY`. */
  lemma FormatCodingProtein(transcript: string, coding: string, protein: string)
    requires ':' !in transcript
    requires "c." <= coding && ':' !in coding && '(' !in coding
    requires "p." <= protein && ':' !in protein && ')' !in protein
    ensures ParseNotation(transcript + ":" + coding + "(" + protein + ")")
              == Ok(CodingProtein(coding, protein))
  {
    var rest := protein + ")";
    var body := coding + "(" + rest;
    var name := transcript + ":" + coding + "(" + protein + ")";
    assert name == transcript + ":" + body;
    assert Contains(body, "p.") by {
      assert OccursAt(body, "p.", |coding| + 1);
      ContainsIff(body, "p.");
    }
    assert ParseNotation(name) == Ok(CodingProtein(coding, RemoveAll(rest, ')'))) by {
      CodingAfterTranscript(transcript, body);
      ParseCodingProteinAt(name, coding, rest);
    }
    assert RemoveAll(rest, ')') == protein by {
      RemoveAllConcat(protein, ")", ')');
      assert RemoveAll(")", ')') == "";
    }
  }

  /** The vendor format `transcript:c.XXX`, with no `p.` in `c.XXX`, parses to
      `c.XXX` alone. */
  lemma FormatCodingOnly(transcript: string, coding: string)
    requires ':' !in transcript
    requires "c." <= coding && ':' !in coding && !Contains(coding, "p.")
    ensures ParseNotation(transcript + ":" + coding) == Ok(Coding(coding))
  {
    CodingAfterTranscript(transcript, coding);
  }
}
