/**
 * chroma_ops/fts.py: tokenizer validation and `rebuild_fts`, which runs the
 * drop-and-recreate script with the tokenizer substituted for its
 * placeholder and then starts Chroma once to check the result.
 */
module Fts {
  import opened Wrappers
  import opened Storage
  import opened Utils
  import opened Seqs
  import FtsGo
  import Constants

  const Placeholder := "__TOKENIZER__"

  datatype FtsError =
    | ValidationFailed(reason: DirError)
    | InvalidTokenizer(given: string)   // ValueError
    | ScriptFailed                      // `executescript` raised
    | StartFailed                       // `PersistentClient` raised; re-raised

  /** `validate_tokenizer`: None when the name starts with one of the four tokenizers. */
  function ValidateTokenizer(tokenizer: string): (r: Option<FtsError>)
    ensures r.None? <==>
      || HasPrefix(tokenizer, "trigram") || HasPrefix(tokenizer, "unicode61")
      || HasPrefix(tokenizer, "ascii") || HasPrefix(tokenizer, "porter")
    ensures r.Some? ==> r.value == InvalidTokenizer(tokenizer)
  {
    if !HasPrefix(tokenizer, "trigram") && !HasPrefix(tokenizer, "unicode61")
       && !HasPrefix(tokenizer, "ascii") && !HasPrefix(tokenizer, "porter")
    then Some(InvalidTokenizer(tokenizer))
    else None
  }

  /** Both front ends accept the same tokenizer names. */
  lemma ValidatorsAgree(tokenizer: string)
    ensures ValidateTokenizer(tokenizer).None? <==> FtsGo.ValidateTokenizer(tokenizer).Ok?
  {
  }

  /** The default of `rebuild_fts` is accepted by both front ends, which share it. */
  lemma DefaultTokenizerAccepted()
    ensures ValidateTokenizer(Constants.DefaultTokenizer).None?
    ensures Constants.DefaultTokenizer == FtsGo.DefaultTokenizer
  {
  }

  predicate OccursAt(s: string, pat: string, i: nat)
  {
    i + |pat| <= |s| && s[i..i + |pat|] == pat
  }

  /** `str.replace`: every non-overlapping occurrence, scanning from the left. */
  function Replace(s: string, pat: string, rep: string): (r: string)
    requires |pat| > 0
    decreases |s|
  {
    if |s| < |pat| then s
    else if s[..|pat|] == pat then rep + Replace(s[|pat|..], pat, rep)
    else [s[0]] + Replace(s[1..], pat, rep)
  }

  /** A script without the placeholder is run as it is. */
  lemma {:induction false} ReplaceNoOccurrence(s: string, pat: string, rep: string)
    requires |pat| > 0 && forall i: nat | i < |s| :: !OccursAt(s, pat, i)
    ensures Replace(s, pat, rep) == s
    decreases |s|
  {
    if |s| >= |pat| {
      assert !OccursAt(s, pat, 0);
      forall i: nat | i < |s[1..]| ensures !OccursAt(s[1..], pat, i) {
        assert !OccursAt(s, pat, i + 1);
      }
      ReplaceNoOccurrence(s[1..], pat, rep);
    }
  }

  /**
   * Text before the first occurrence is kept and that occurrence becomes the
   * replacement; the scan then goes on after it.
   */
  lemma {:induction false} ReplaceSplice(a: string, pat: string, b: string, rep: string)
    requires |pat| > 0 && forall i: nat | i < |a| :: !OccursAt(a + pat + b, pat, i)
    ensures Replace(a + pat + b, pat, rep) == a + rep + Replace(b, pat, rep)
    decreases |a|
  {
    var s := a + pat + b;
    if a == [] {
      assert s == pat + b;
      assert s[..|pat|] == pat;
      assert s[|pat|..] == b;
    } else {
      assert !OccursAt(s, pat, 0);
      assert s[1..] == a[1..] + pat + b;
      forall i: nat | i < |a[1..]| ensures !OccursAt(a[1..] + pat + b, pat, i) {
        assert !OccursAt(s, pat, i + 1);
      }
      ReplaceSplice(a[1..], pat, b, rep);
      assert [s[0]] + (a[1..] + rep + Replace(b, pat, rep)) == a + rep + Replace(b, pat, rep);
    }
  }

  /** A script with one placeholder, and none straddling it, runs with the tokenizer in its place. */
  lemma SubstituteOnce(a: string, b: string, tokenizer: string)
    requires forall i: nat | i < |a| :: !OccursAt(a + Placeholder + b, Placeholder, i)
    requires forall i: nat | i < |b| :: !OccursAt(b, Placeholder, i)
    ensures Replace(a + Placeholder + b, Placeholder, tokenizer) == a + tokenizer + b
  {
    ReplaceSplice(a, Placeholder, b, tokenizer);
    ReplaceNoOccurrence(b, Placeholder, tokenizer);
  }

  datatype Outcome = Cancelled | Rebuilt

  /**
   * `rebuild_fts`. `script` is the text of `scripts/drop_fts.sql`;
   * `confirmed` answers the prompt; `scriptFails` and `startFails` say
   * whether `executescript` and the Chroma start raise. `executed` is the
   * script the database received, None when no connection was opened.
   */
  method RebuildFts(fs: PersistDir, tokenizer: string, yes: bool, confirmed: bool, script: string,
                    scriptFails: bool, startFails: bool)
    returns (r: Result<Outcome, FtsError>, executed: Option<string>)
    ensures ValidatePersistDir(fs.root, fs.entries).Some? ==>
      r == Err(ValidationFailed(ValidatePersistDir(fs.root, fs.entries).value)) && executed == None
    ensures ValidatePersistDir(fs.root, fs.entries).None? && ValidateTokenizer(tokenizer).Some? ==>
      r == Err(InvalidTokenizer(tokenizer)) && executed == None
    ensures ValidatePersistDir(fs.root, fs.entries).None? && ValidateTokenizer(tokenizer).None? ==>
      && (!yes && !confirmed ==> r == Ok(Cancelled) && executed == None)
      && (yes || confirmed ==>
            && executed == Some(Replace(script, Placeholder, tokenizer))
            && r == (if scriptFails then Err(ScriptFailed) else if startFails then Err(StartFailed) else Ok(Rebuilt)))
  {
    var invalid := ValidatePersistDir(fs.root, fs.entries);
    if invalid.Some? {
      return Err(ValidationFailed(invalid.value)), None;
    }
    var bad := ValidateTokenizer(tokenizer);
    if bad.Some? {
      return Err(bad.value), None;
    }
    if !yes && !confirmed {
      return Ok(Cancelled), None;
    }
    var text := Replace(script, Placeholder, tokenizer);
    executed := Some(text);
    if scriptFails {
      return Err(ScriptFailed), executed;
    }
    if startFails {
      return Err(StartFailed), executed;
    }
    return Ok(Rebuilt), executed;
  }
}
