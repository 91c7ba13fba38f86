/** The architecture alias map of webui_controller.rb:220-227: build workers
    run the 64-bit relative of a few 32-bit architectures. */
module Workers {
  /** The architectures that have a worker alias. */
  const Aliased: set<string> := {"i586", "ppc", "s390"}

  function MapToWorkers(arch: string): (w: string)
    ensures w !in Aliased
    ensures arch !in Aliased ==> w == arch
    ensures arch in Aliased ==> w != arch
  {
    if arch == "i586" then "x86_64"
    else if arch == "ppc" then "ppc64"
    else if arch == "s390" then "s390x"
    else arch
  }

  /** Mapping a second time changes nothing. */
  lemma MapToWorkersIdempotent(arch: string)
    ensures MapToWorkers(MapToWorkers(arch)) == MapToWorkers(arch)
  {
  }
}

/** The name checks of webui_controller.rb:139-157. Each is `name =~ /^…$/`,
    and in Ruby `^` and `$` match at the start and end of every line, so a
    name passes when SOME line of it is a non-empty run of allowed
    characters. */
module Names {
  import opened Strings

  datatype Validator = FileName | RoleName | UserName | GroupName | TargetName

  /** Ruby's `\w` on ASCII text: letters, digits and underscore. */
  predicate IsWordChar(c: char) {
    ('a' <= c <= 'z') || ('A' <= c <= 'Z') || ('0' <= c <= '9') || c == '_'
  }

  /** The class of the first character of a name. */
  predicate FirstOk(v: Validator, c: char) {
    match v
    case FileName => c == '-' || IsWordChar(c) || c == '+' || c == '~' || c == ' '
    case RoleName | UserName | GroupName => IsWordChar(c) || c == '-' || c == '.' || c == '+'
    case TargetName => IsWordChar(c)
  }

  /** The class of every later character of a name. */
  predicate RestOk(v: Validator, c: char) {
    match v
    case FileName => c == '-' || IsWordChar(c) || c == '.' || c == '+' || c == '~' || c == ' '
    case RoleName | UserName | GroupName => IsWordChar(c) || c == '-' || c == '.' || c == '+'
    case TargetName => c == '-' || c == '.' || IsWordChar(c) || c == '&'
  }

  /** `line` is, as a whole, a name `v` accepts. */
  predicate WholeOk(v: Validator, line: string) {
    0 < |line| && FirstOk(v, line[0]) && forall k :: 1 <= k < |line| ==> RestOk(v, line[k])
  }

  /** The pattern of `v` matches from a line start `i` to a line end `j` of `s`. */
  ghost predicate LineMatch(v: Validator, s: string, i: int, j: int) {
    && 0 <= i < j <= |s|
    && (i == 0 || s[i - 1] == '\n')
    && (j == |s| || s[j] == '\n')
    && FirstOk(v, s[i])
    && forall k :: i < k < j ==> RestOk(v, s[k])
  }

  /** What `name =~ /^…$/` decides for the pattern of `v`. */
  ghost predicate SomeLineMatches(v: Validator, s: string) {
    exists i, j :: LineMatch(v, s, i, j)
  }

  /** No class admits a line feed. */
  lemma NoLineFeedInClasses(v: Validator)
    ensures !FirstOk(v, '\n') && !RestOk(v, '\n')
  {
  }

  /** The only match that can start at the line start `i` ends at the next
      line feed `e`, and it is there exactly when the line is a whole name. */
  lemma LineMatchesAt(v: Validator, s: string, i: nat)
    requires i <= |s| && (i == 0 || s[i - 1] == '\n')
    ensures var e := IndexOf(s, '\n', i);
            forall j :: LineMatch(v, s, i, j) <==> (j == e && WholeOk(v, s[i..e]))
  {
    var e := IndexOf(s, '\n', i);
    NoLineFeedInClasses(v);
    forall j
      ensures LineMatch(v, s, i, j) <==> (j == e && WholeOk(v, s[i..e]))
    {
      if j == e && WholeOk(v, s[i..e]) {
        forall k | i < k < j
          ensures RestOk(v, s[k])
        {
          assert s[k] == s[i..e][k - i];
        }
      }
      if LineMatch(v, s, i, j) {
        assert j <= e;
        assert e <= j;
        assert forall k :: 1 <= k < j - i ==> s[i..e][k] == s[i + k];
      }
    }
  }

  /** A position inside a line is not a line start. */
  lemma NotALineStart(v: Validator, s: string, i: nat, i': int, j: int)
    requires i <= |s|
    requires i < i' <= IndexOf(s, '\n', i)
    ensures !LineMatch(v, s, i', j)
  {
    assert s[i' - 1] != '\n';
  }

  /** `valid_file_name?` and its kin: scans the lines of `s` in order and
      reports whether one of them is a whole name `v` accepts. */
  method IsValidOnSomeLine(v: Validator, s: string) returns (ok: bool)
    ensures ok <==> SomeLineMatches(v, s)
  {
    var i: nat := 0;
    while i <= |s|
      invariant i <= |s| + 1
      invariant i <= |s| ==> (i == 0 || s[i - 1] == '\n')
      invariant forall i', j :: i' < i ==> !LineMatch(v, s, i', j)
      decreases |s| + 1 - i
    {
      var e := IndexOf(s, '\n', i);
      LineMatchesAt(v, s, i);
      if WholeOk(v, s[i..e]) {
        assert LineMatch(v, s, i, e);
        return true;
      }
      forall i', j | i <= i' < e + 1
        ensures !LineMatch(v, s, i', j)
      {
        if i < i' {
          NotALineStart(v, s, i, i', j);
        }
      }
      i := e + 1;
    }
    return false;
  }

  /** On a name of one line the line anchors are the ends of the name. */
  lemma SingleLineIsWhole(v: Validator, s: string)
    requires '\n' !in s
    ensures SomeLineMatches(v, s) <==> WholeOk(v, s)
  {
    LineMatchesAt(v, s, 0);
    assert IndexOf(s, '\n', 0) == |s|;
    assert s[0..|s|] == s;
    forall i, j
      ensures LineMatch(v, s, i, j) ==> i == 0
    {
      if 0 < i <= |s| {
        assert s[i - 1] in s;
      }
    }
    if WholeOk(v, s) {
      assert LineMatch(v, s, 0, |s|);
    }
  }

  /** A name passes even when another of its lines holds characters no class
      admits: `../x` followed by a line feed and `ok` is a valid file name. */
  lemma OtherLinesAreNotChecked()
    ensures SomeLineMatches(FileName, "../x\nok")
    ensures !WholeOk(FileName, "../x\nok")
  {
    var s := "../x\nok";
    assert LineMatch(FileName, s, 5, 7);
  }

  /** The check anchored at the start and end of the whole name (`\A…\z`). */
  method IsValidName(v: Validator, s: string) returns (ok: bool)
    ensures ok ==> '\n' !in s
    ensures ok <==> WholeOk(v, s)
    ensures ok ==> SomeLineMatches(v, s)
  {
    ok := 0 < |s| && FirstOk(v, s[0]);
    var k := 1;
    while ok && k < |s|
      invariant 1 <= k
      invariant ok <==> 0 < |s| && FirstOk(v, s[0]) && forall m :: 1 <= m < k && m < |s| ==> RestOk(v, s[m])
    {
      ok := RestOk(v, s[k]);
      k := k + 1;
    }
    if ok {
      NoLineFeedInClasses(v);
      assert LineMatch(v, s, 0, |s|);
    }
  }
}
