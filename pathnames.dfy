/** File-name handling in the rewriter: the filename taken from a model
    path, and the name of the corrected output file. Both follow Python's
    POSIX path functions (`posixpath.basename`, `posixpath.splitext`). */
module PathNames {
  import opened Text

  /** `old_path.replace('\\', '/')`: every backslash becomes a forward slash. */
  function Normalize(s: string): (r: string)
    ensures |r| == |s|
    ensures forall i :: 0 <= i < |s| ==> r[i] == (if s[i] == '\\' then '/' else s[i])
  {
    ReplaceChar(s, '\\', '/');
    Replace(s, "\\", "/")
  }

  predicate IsSeparator(c: char)
  {
    c == '/' || c == '\\'
  }

  /** `posixpath.basename`: the part of `p` after its last `/`, or all of `p`
      when it has none. */
  function Basename(p: string): (r: string)
    ensures |r| <= |p| && r == p[|p| - |r|..]
    ensures forall i :: 0 <= i < |r| ==> r[i] != '/'
    ensures |r| == |p| || p[|p| - |r| - 1] == '/'
    decreases |p|
  {
    if p == [] || p[|p| - 1] == '/' then []
    else Basename(p[..|p| - 1]) + [p[|p| - 1]]
  }

  /** The filename the rewriter keeps from a model path:
      `os.path.basename(old_path.replace('\\', '/'))`. */
  function FileName(value: string): string
  {
    Basename(Normalize(value))
  }

  /** Where the normalised form has no `/`, it agrees with the original,
      which has no separator there. */
  lemma NormalizedSuffix(value: string, n: string, k: nat)
    requires |n| == |value| && k <= |n|
    requires forall i :: 0 <= i < |value| ==> n[i] == (if value[i] == '\\' then '/' else value[i])
    requires forall i :: k <= i < |n| ==> n[i] != '/'
    ensures n[k..] == value[k..]
    ensures forall i :: k <= i < |value| ==> !IsSeparator(value[i])
  {
    assert forall i :: k <= i < |n| ==> n[i] == value[i];
  }

  /** The basename of any backslash-normalised form of `value` is the last
      separator-free segment of `value` itself. */
  lemma LastSegmentOfNormalized(value: string, n: string)
    requires |n| == |value|
    requires forall i :: 0 <= i < |value| ==> n[i] == (if value[i] == '\\' then '/' else value[i])
    ensures var r := Basename(n);
      && |r| <= |value| && r == value[|value| - |r|..]
      && (forall i :: 0 <= i < |r| ==> !IsSeparator(r[i]))
      && (|r| == |value| || IsSeparator(value[|value| - |r| - 1]))
  {
    var r := Basename(n);
    var k := |n| - |r|;
    forall i | k <= i < |n| ensures n[i] != '/' {
      assert n[i] == r[i - k];
    }
    NormalizedSuffix(value, n, k);
    forall i | 0 <= i < |r| ensures !IsSeparator(r[i]) {
      assert r[i] == value[k + i];
    }
  }

  /** The filename is the longest suffix of the path free of both separators:
      it contains neither `/` nor `\`, and either it is the whole path or the
      character just before it is a separator. */
  lemma FileNameIsLastSegment(value: string)
    ensures var r := FileName(value);
      && |r| <= |value| && r == value[|value| - |r|..]
      && (forall i :: 0 <= i < |r| ==> !IsSeparator(r[i]))
      && (|r| == |value| || IsSeparator(value[|value| - |r| - 1]))
  {
    LastSegmentOfNormalized(value, Normalize(value));
  }

  /** A path with no separator is its own filename. */
  lemma FileNameOfPlainName(value: string)
    requires forall i :: 0 <= i < |value| ==> !IsSeparator(value[i])
    ensures FileName(value) == value
  {
    FileNameIsLastSegment(value);
  }

  /** A separator-free `name` right after a separator is the filename. */
  lemma FileNameAfterSeparator(dir: string, name: string)
    requires |dir| > 0 && IsSeparator(dir[|dir| - 1])
    requires forall i :: 0 <= i < |name| ==> !IsSeparator(name[i])
    ensures FileName(dir + name) == name
  {
    var v := dir + name;
    FileNameIsLastSegment(v);
    assert v[|v| - |name|..] == name;
  }

  /** Index of the last `c` in `s`, or -1 when `s` holds none (`str.rfind`). */
  function LastIndex(s: string, c: char): (k: int)
    ensures -1 <= k < |s|
    ensures k >= 0 ==> s[k] == c
    ensures forall t :: k < t < |s| ==> s[t] != c
    decreases |s|
  {
    if s == [] then -1
    else if s[|s| - 1] == c then |s| - 1
    else LastIndex(s[..|s| - 1], c)
  }

  predicate AllDots(s: string)
  {
    forall i :: 0 <= i < |s| ==> s[i] == '.'
  }

  /** `posixpath.splitext`: split at the last `.` after the last `/`, unless
      every character of the final component before that dot is a dot too;
      then the extension is empty. */
  function SplitExt(p: string): (string, string)
  {
    var sep := LastIndex(p, '/');
    var dot := LastIndex(p, '.');
    if dot > sep && !AllDots(p[sep + 1..dot]) then (p[..dot], p[dot..]) else (p, [])
  }

  /** A final path component has an extension when some dot in it follows a
      character that is not a dot. */
  ghost predicate HasExtension(component: string)
  {
    exists j, k :: 0 <= j < k < |component| && component[j] != '.' && component[k] == '.'
  }

  /** The final component starts just after the last `/`. */
  lemma BasenameAfterLastSlash(p: string)
    ensures Basename(p) == p[LastIndex(p, '/') + 1..]
  {
  }

  /** Base and extension put back together give the path. */
  lemma SplitExtJoin(p: string)
    ensures SplitExt(p).0 + SplitExt(p).1 == p
  {
    var dot := LastIndex(p, '.');
    if SplitExt(p).1 != [] {
      assert p[..dot] + p[dot..] == p;
    }
  }

  /** The text from the last dot on, when that dot is after the last `/`. */
  lemma TailFromLastDot(p: string, sep: int, dot: int)
    requires -1 <= sep < dot < |p| && p[dot] == '.'
    requires forall t :: dot < t < |p| ==> p[t] != '.'
    requires forall t :: sep < t < |p| ==> p[t] != '/'
    ensures var ext := p[dot..];
      && ext[0] == '.'
      && (forall i :: 1 <= i < |ext| ==> ext[i] != '.')
      && (forall i :: 0 <= i < |ext| ==> ext[i] != '/')
  {
    var ext := p[dot..];
    forall i | 0 <= i < |ext| ensures ext[i] == p[dot + i] { }
  }

  /** A non-empty extension is a dot followed by text with no dot and no `/`. */
  lemma SplitExtShape(p: string)
    ensures var ext := SplitExt(p).1;
      ext != [] ==>
        && ext[0] == '.'
        && (forall i :: 1 <= i < |ext| ==> ext[i] != '.')
        && (forall i :: 0 <= i < |ext| ==> ext[i] != '/')
  {
    if SplitExt(p).1 != [] {
      TailFromLastDot(p, LastIndex(p, '/'), LastIndex(p, '.'));
    }
  }

  lemma HasExtensionAt(component: string, j: nat, k: nat)
    requires j < k < |component| && component[j] != '.' && component[k] == '.'
    ensures HasExtension(component)
  {
  }

  /** A dot after a non-dot stem makes the component have an extension. */
  lemma ExtensionFromStem(p: string, sep: int, dot: int)
    requires -1 <= sep < dot < |p| && p[dot] == '.'
    requires !AllDots(p[sep + 1..dot])
    ensures HasExtension(p[sep + 1..])
  {
    var stem := p[sep + 1..dot];
    var j :| 0 <= j < |stem| && stem[j] != '.';
    var b := p[sep + 1..];
    assert b[j] == stem[j];
    assert b[|stem|] == '.';
    HasExtensionAt(b, j, |stem|);
  }

  /** A component with an extension has its last dot after a non-dot stem. */
  lemma StemFromExtension(p: string, sep: int, dot: int)
    requires -1 <= sep < |p| && -1 <= dot < |p|
    requires forall t :: dot < t < |p| ==> p[t] != '.'
    requires HasExtension(p[sep + 1..])
    ensures dot > sep && !AllDots(p[sep + 1..dot])
  {
    var b := p[sep + 1..];
    var j, k :| 0 <= j < k < |b| && b[j] != '.' && b[k] == '.';
    assert p[sep + 1 + k] == '.';
    assert sep + 1 + k <= dot;
    var stem := p[sep + 1..dot];
    assert stem[j] == b[j];
  }

  /** The extension is non-empty exactly when the final component has one. */
  lemma SplitExtNonEmptyIff(p: string)
    ensures SplitExt(p).1 != [] <==> HasExtension(Basename(p))
  {
    var sep, dot := LastIndex(p, '/'), LastIndex(p, '.');
    BasenameAfterLastSlash(p);
    if SplitExt(p).1 != [] {
      ExtensionFromStem(p, sep, dot);
    }
    if HasExtension(Basename(p)) {
      StemFromExtension(p, sep, dot);
    }
  }

  /** Everything `splitext` promises: base and extension put back together
      give the path; the extension is non-empty exactly when the final
      component has one, and then it is a dot followed by text holding no dot
      and no `/`. */
  lemma SplitExtSpec(p: string)
    ensures SplitExt(p).0 + SplitExt(p).1 == p
    ensures SplitExt(p).1 != [] <==> HasExtension(Basename(p))
    ensures var ext := SplitExt(p).1;
      ext != [] ==>
        && ext[0] == '.'
        && (forall i :: 1 <= i < |ext| ==> ext[i] != '.')
        && (forall i :: 0 <= i < |ext| ==> ext[i] != '/')
  {
    SplitExtJoin(p);
    SplitExtNonEmptyIff(p);
    SplitExtShape(p);
  }

  /** The corrected file's name: `f"{base}_fixed{ext}"`. */
  function OutputName(p: string): string
  {
    SplitExt(p).0 + "_fixed" + SplitExt(p).1
  }

  /** The output name places `_fixed` between the path's base and its
      extension, and at the very end when the final component has none. */
  lemma OutputNameSpec(p: string)
    ensures var ext := SplitExt(p).1;
      && |ext| <= |p| && OutputName(p) == p[..|p| - |ext|] + "_fixed" + ext
      && (!HasExtension(Basename(p)) ==> OutputName(p) == p + "_fixed")
  {
    SplitExtSpec(p);
    var (base, ext) := SplitExt(p);
    assert base == p[..|p| - |ext|];
  }
}
