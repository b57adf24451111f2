/**
 * The per-file worker `md5sum`: it runs the checksum command on one file and
 * takes the digest from the command's output. The command itself is outside
 * the model; its decoded standard output for each file is the parameter
 * `output`.
 */
module Checksum {
  import opened Outcomes
  import opened PyStr

  /** `stdout.strip().split(maxsplit=1)[0]`: the first whitespace-delimited
      token of the output, or None where Python raises IndexError because the
      output is empty or only whitespace. */
  function ExtractDigest(out: string): Option<string> {
    var fields := SplitWhitespaceOnce(Strip(out));
    if fields == [] then None else Some(fields[0])
  }

  /** There is a digest exactly when the output is not all whitespace, and
      the digest is a non-empty string without whitespace. */
  lemma ExtractDigestSpec(out: string)
    ensures ExtractDigest(out).None? <==> AllSpace(out)
    ensures ExtractDigest(out).Some? ==>
      ExtractDigest(out).value != [] && NoSpace(ExtractDigest(out).value)
  {
    StripSpec(out);
    SplitWhitespaceOnceSpec(Strip(out));
  }

  /** `md5sum(file)`: the pair a worker hands back, or None where the worker
      raises. */
  function Md5sum(file: string, output: string -> string): (r: Option<(string, string)>)
    ensures r.Some? <==> ExtractDigest(output(file)).Some?
    ensures r.Some? ==> r.value.0 == file && Some(r.value.1) == ExtractDigest(output(file))
  {
    match ExtractDigest(output(file))
    case None => None
    case Some(hex) => Some((file, hex))
  }

  /** Stripping keeps every character up to the last non-whitespace one. */
  lemma {:induction false} RStripKeeps(s: string, k: nat)
    requires k < |s| && !IsSpace(s[k])
    ensures k < |RStrip(s)|
    decreases |s|
  {
    if IsSpace(s[|s| - 1]) {
      assert k != |s| - 1;
      RStripKeeps(s[..|s| - 1], k);
    }
  }

  /** The contract of SpaceRun determines its value. */
  lemma {:induction false} SpaceRunAt(s: string, n: nat)
    requires n < |s| && AllSpace(s[..n]) && !IsSpace(s[n])
    ensures SpaceRun(s) == n
    decreases n
  {
    if n > 0 {
      assert s[0] == s[..n][0];
      assert s[1..][..n - 1] == s[..n][1..];
      SpaceRunAt(s[1..], n - 1);
    }
  }

  /** The contract of TokenRun determines its value. */
  lemma {:induction false} TokenRunAt(s: string, n: nat)
    requires n <= |s| && NoSpace(s[..n]) && (n < |s| ==> IsSpace(s[n]))
    ensures TokenRun(s) == n
    decreases n
  {
    if n > 0 {
      assert s[0] == s[..n][0];
      assert s[1..][..n - 1] == s[..n][1..];
      TokenRunAt(s[1..], n - 1);
    }
  }

  /** The digest is the first maximal run of non-whitespace characters: for
      output made of leading whitespace, a token, and anything that starts
      with whitespace, the digest is that token. Together with the contract
      of ExtractDigest this fixes the digest of every output. */
  lemma DigestIsFirstToken(lead: string, tok: string, rest: string)
    requires AllSpace(lead) && tok != [] && NoSpace(tok)
    requires rest == [] || IsSpace(rest[0])
    ensures ExtractDigest(lead + tok + rest) == Some(tok)
  {
    var u := Strip(lead + tok + rest);
    StrippedStart(lead, tok, rest);
    TokenRunAt(u, |tok|);
    assert u[..0] == [];
    assert u[0] == tok[0];
    SpaceRunAt(u, 0);
    assert u[0..|tok|] == tok;
  }

  /** After stripping, the output starts with the token, and whatever comes
      next is the whitespace that starts the rest. */
  lemma StrippedStart(lead: string, tok: string, rest: string)
    requires AllSpace(lead) && tok != [] && NoSpace(tok)
    requires rest == [] || IsSpace(rest[0])
    ensures var u := Strip(lead + tok + rest);
      |tok| <= |u| && u[..|tok|] == tok && (|tok| < |u| ==> IsSpace(u[|tok|]))
  {
    var s := lead + tok + rest;
    StripAfterLead(lead, tok, rest);
    var u := Strip(s);
    forall x | 0 <= x < |tok| ensures u[x] == tok[x] {
      assert u[x] == s[|lead| + x];
    }
    if |tok| < |u| {
      assert u[|tok|] == s[|lead| + |tok|] == rest[0];
    }
  }

  /** Stripping output that starts with whitespace and a token removes exactly
      the leading whitespace at the front. */
  lemma StripAfterLead(lead: string, tok: string, rest: string)
    requires AllSpace(lead) && tok != [] && NoSpace(tok)
    ensures var s := lead + tok + rest;
      |lead| + |tok| <= |RStrip(s)| <= |s| && Strip(s) == s[|lead|..|RStrip(s)|]
  {
    var s := lead + tok + rest;
    var e := |lead| + |tok|;
    assert s[e - 1] == tok[|tok| - 1];
    RStripKeeps(s, e - 1);
    var t := RStrip(s);
    RStripSpec(s);
    assert t[..|lead|] == lead;
    assert t[|lead|] == tok[0];
    SpaceRunAt(t, |lead|);
  }

  /** For the conventional output line `<hex>  <file>\n` of a checksum
      utility, the digest is the hex string. */
  lemma ConventionalOutput(hex: string, file: string)
    requires hex != [] && NoSpace(hex)
    ensures ExtractDigest(hex + "  " + file + "\n") == Some(hex)
  {
    var rest := "  " + file + "\n";
    assert rest[0] == ' ';
    DigestIsFirstToken([], hex, rest);
    assert [] + hex + rest == hex + "  " + file + "\n";
  }
}
