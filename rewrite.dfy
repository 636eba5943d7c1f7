/** The per-line work of `fix_kicad_pcb_paths`: find the leftmost match of
    the pattern `\(path "([^"]+)"\)`, derive the relative replacement path
    from its captured value, and apply `line.replace(old_path, new_path)`. */
module Rewrite {
  import opened Text
  import opened PathNames

  /** The literal text the pattern demands before the captured value. */
  const Opener: string := "(path \""
  /** The literal text the pattern demands after the captured value. */
  const Closer: string := "\")"
  /** The KiCad project-directory variable, emitted as literal text. */
  const ProjectDir: string := "${KIPRJMOD}"

  predicate QuoteFree(s: string)
  {
    forall i :: 0 <= i < |s| ==> s[i] != '"'
  }

  /** The pattern matches `line` at index `i` with `value` as its group:
      `(path "` at `i`, then the non-empty, quote-free `value`, then `")`. */
  predicate PathAt(line: string, i: int, value: string)
  {
    && |value| > 0
    && QuoteFree(value)
    && OccursAt(line, Opener, i)
    && OccursAt(line, value, i + |Opener|)
    && OccursAt(line, Closer, i + |Opener| + |value|)
  }

  /** Where the pattern matched, and its captured value. */
  datatype Match = Match(start: nat, value: string)

  /** Index of the first `"` in `s` at or after `k`, or `|s|` when none. */
  function QuoteFrom(s: string, k: nat): (j: nat)
    requires k <= |s|
    ensures k <= j <= |s|
    ensures j < |s| ==> s[j] == '"'
    ensures forall t :: k <= t < j ==> s[t] != '"'
    decreases |s| - k
  {
    if k == |s| || s[k] == '"' then k else QuoteFrom(s, k + 1)
  }

  /** Any value matched at `i` is the run of non-quote characters after
      the opener: the greedy `[^"]+` can stop nowhere else. */
  lemma PathAtDetermined(line: string, i: nat, value: string)
    requires PathAt(line, i, value)
    ensures QuoteFrom(line, i + |Opener|) == i + |Opener| + |value|
    ensures line[i + |Opener|..i + |Opener| + |value|] == value
  {
    var k := i + |Opener|;
    var q := k + |value|;
    assert line[q] == line[q..q + |Closer|][0];
    forall t | k <= t < q ensures line[t] != '"' {
      assert line[t] == line[k..q][t - k];
    }
  }

  /** At one index the pattern captures at most one value. */
  lemma PathAtUnique(line: string, i: nat, v: string, w: string)
    requires PathAt(line, i, v) && PathAt(line, i, w)
    ensures v == w
  {
    PathAtDetermined(line, i, v);
    PathAtDetermined(line, i, w);
  }

  /** The group captured when the pattern is tried at `i`, if it matches. */
  function MatchAt(line: string, i: nat): (r: Option<string>)
    requires i <= |line|
    ensures r.Some? ==> PathAt(line, i, r.value)
    ensures forall v :: PathAt(line, i, v) ==> r == Some(v)
  {
    var k := i + |Opener|;
    if OccursAt(line, Opener, i) then
      var j := QuoteFrom(line, k);
      if j > k && OccursAt(line, Closer, j) then
        assert QuoteFree(line[k..j]) by {
          forall t | 0 <= t < j - k ensures line[k..j][t] != '"' {
            assert line[k..j][t] == line[k + t];
          }
        }
        assert OccursAt(line, line[k..j], k);
        forall v | PathAt(line, i, v) ensures v == line[k..j] {
          PathAtDetermined(line, i, v);
        }
        Some(line[k..j])
      else
        forall v | PathAt(line, i, v) ensures false {
          PathAtDetermined(line, i, v);
        }
        None
    else
      None
  }

  /** `path_regex.search(line)` from index `k` on. */
  function SearchFrom(line: string, k: nat): (r: Option<Match>)
    requires k <= |line|
    ensures r.Some? ==> k <= r.value.start && PathAt(line, r.value.start, r.value.value)
    ensures r.Some? ==> forall i, v :: k <= i < r.value.start ==> !PathAt(line, i, v)
    ensures r.None? ==> forall i, v :: k <= i ==> !PathAt(line, i, v)
    decreases |line| - k
  {
    match MatchAt(line, k)
    case Some(v) => Some(Match(k, v))
    case None => if k == |line| then None else SearchFrom(line, k + 1)
  }

  /** `path_regex.search(line)`: the leftmost match of the pattern, or none. */
  function Search(line: string): (r: Option<Match>)
    ensures r.Some? ==> PathAt(line, r.value.start, r.value.value)
    ensures r.Some? ==> forall i, v :: 0 <= i < r.value.start ==> !PathAt(line, i, v)
    ensures r.None? ==> forall i, v :: !PathAt(line, i, v)
  {
    SearchFrom(line, 0)
  }

  /** The search result at the leftmost match is that match. */
  lemma SearchFindsLeftmost(line: string, i: nat, v: string)
    requires PathAt(line, i, v)
    requires forall j, w :: 0 <= j < i ==> !PathAt(line, j, w)
    ensures Search(line) == Some(Match(i, v))
  {
    var m := Search(line).value;
    PathAtUnique(line, i, m.value, v);
  }

  /** `f"${{KIPRJMOD}}/{shapes_folder}/{filename}"`. */
  function NewPath(folder: string, filename: string): string
  {
    ProjectDir + "/" + folder + "/" + filename
  }

  /** One iteration of the loop body: the line as written to the output. */
  function RewriteLine(line: string, folder: string): string
  {
    match Search(line)
    case None => line
    case Some(m) => Replace(line, m.value, NewPath(folder, FileName(m.value)))
  }

  /** A line without a match is written unchanged. */
  lemma RewriteUnmatched(line: string, folder: string)
    requires forall i, v :: !PathAt(line, i, v)
    ensures RewriteLine(line, folder) == line
  {
  }

  /** On a matched line, every occurrence of the leftmost captured value is
      replaced by `${KIPRJMOD}/<folder>/<filename>`, scanning left to right. */
  lemma RewriteMatched(line: string, folder: string, i: nat, v: string)
    requires PathAt(line, i, v)
    requires forall j, w :: 0 <= j < i ==> !PathAt(line, j, w)
    ensures RewriteLine(line, folder)
      == Replace(line, v, "${KIPRJMOD}/" + folder + "/" + FileName(v))
  {
    SearchFindsLeftmost(line, i, v);
    assert NewPath(folder, FileName(v)) == "${KIPRJMOD}/" + folder + "/" + FileName(v);
  }

  /** When the captured value occurs only once in the line, everything
      around it is kept verbatim. */
  lemma RewriteMatchedOnce(line: string, folder: string, i: nat, v: string)
    requires PathAt(line, i, v)
    requires forall j, w :: 0 <= j < i ==> !PathAt(line, j, w)
    requires forall p :: OccursAt(line, v, p) ==> p == i + |Opener|
    ensures var k := i + |Opener|;
      RewriteLine(line, folder) == line[..k] + NewPath(folder, FileName(v)) + line[k + |v|..]
  {
    SearchFindsLeftmost(line, i, v);
    ReplaceOnce(line, v, NewPath(folder, FileName(v)), i + |Opener|);
  }

  /** A lone separator-free value `X` becomes `${KIPRJMOD}/<folder>/X` in
      place, and the rest of the line is untouched. */
  lemma RewritePlainName(line: string, folder: string, i: nat, v: string)
    requires PathAt(line, i, v)
    requires forall j, w :: 0 <= j < i ==> !PathAt(line, j, w)
    requires forall p :: OccursAt(line, v, p) ==> p == i + |Opener|
    requires forall t :: 0 <= t < |v| ==> !IsSeparator(v[t])
    ensures var k := i + |Opener|;
      RewriteLine(line, folder) == line[..k] + NewPath(folder, v) + line[k + |v|..]
  {
    RewriteMatchedOnce(line, folder, i, v);
    FileNameOfPlainName(v);
  }

  /** The replace is not tied to the match: the first occurrence of the
      captured value anywhere in the line, at `p`, is replaced first, even
      when it lies before the `(path "` that was matched or inside it. */
  lemma RewriteFirstOccurrence(line: string, folder: string, i: nat, v: string, p: nat)
    requires PathAt(line, i, v)
    requires forall j, w :: 0 <= j < i ==> !PathAt(line, j, w)
    requires OccursAt(line, v, p)
    requires forall q :: 0 <= q < p ==> !OccursAt(line, v, q)
    ensures var rep := NewPath(folder, FileName(v));
      RewriteLine(line, folder) == line[..p] + rep + Replace(line[p + |v|..], v, rep)
  {
    SearchFindsLeftmost(line, i, v);
    ReplaceFirst(line, v, NewPath(folder, FileName(v)), p);
  }

  /** A path that is already `${KIPRJMOD}/<folder>/<name>`, with a
      separator-free `name`, is rewritten to itself: the line comes out
      unchanged. */
  lemma RewriteAlreadyRelative(line: string, folder: string, i: nat, name: string)
    requires forall t :: 0 <= t < |name| ==> !IsSeparator(name[t])
    requires PathAt(line, i, "${KIPRJMOD}/" + folder + "/" + name)
    requires forall j, w :: 0 <= j < i ==> !PathAt(line, j, w)
    ensures RewriteLine(line, folder) == line
  {
    var dir := "${KIPRJMOD}/" + folder + "/";
    var v := dir + name;
    assert v == "${KIPRJMOD}/" + folder + "/" + name;
    RewriteMatched(line, folder, i, v);
    FileNameAfterSeparator(dir, name);
    ReplaceBySelf(line, v);
  }
}
