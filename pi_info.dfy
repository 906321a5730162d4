/**
 Plugin.get_pi_info in TEMP.py, over the lines of /proc/cpuinfo: a dict with
 the four lower-case keys, all '' at first; every line is stripped and split
 on ': ', and a line whose first piece is one of the four capitalised names
 sets the matching key to the second piece.
 */
module PiInfo {
  import opened Wrappers
  import opened PyStr

  /** The four field names looked for in /proc/cpuinfo, capitalised as the kernel prints them. */
  const CpuInfoKeys: seq<string> := ["Hardware", "Revision", "Serial", "Model"]
  const FieldSeparator: string := ": "

  /** The keys of the returned dict: the four field names in lower case. */
  const InfoKeys: set<string> := {"hardware", "revision", "serial", "model"}

  /**
   The IndexError raised when a line names a field but has no second piece to
   take its value from; it is not an IOError, so it leaves get_pi_info.
   */
  datatype PiInfoError = IndexError

  /** The line with its surrounding whitespace stripped, cut at every ': '. */
  function Pieces(line: string): (p: seq<string>)
    ensures |p| >= 1
  {
    Split(Strip(line), FieldSeparator)
  }

  /** The first piece of the line is one of the four field names. */
  predicate IsKeyLine(line: string)
  {
    Pieces(line)[0] in CpuInfoKeys
  }

  /** A line that names a field but has no second piece. */
  predicate IsBrokenKeyLine(line: string)
  {
    IsKeyLine(line) && |Pieces(line)| < 2
  }

  lemma LowerKeys()
    ensures LowerAscii("Hardware") == "hardware" && LowerAscii("Revision") == "revision"
    ensures LowerAscii("Serial") == "serial" && LowerAscii("Model") == "model"
    ensures InfoKeys == set k | k in CpuInfoKeys :: LowerAscii(k)
  {
  }

  /** Lower-casing sends the four names to four different keys of the dict. */
  lemma LowerKeysDistinct(a: string, b: string)
    requires a in CpuInfoKeys && b in CpuInfoKeys
    ensures LowerAscii(a) in InfoKeys
    ensures LowerAscii(a) == LowerAscii(b) ==> a == b
  {
    LowerKeys();
    assert a == "Hardware" || a == "Revision" || a == "Serial" || a == "Model";
    assert b == "Hardware" || b == "Revision" || b == "Serial" || b == "Model";
  }

  /** The dict before any line is read: every field name, lower-cased, maps to the empty string. */
  function InitialInfo(): (r: map<string, string>)
    ensures r.Keys == set name | name in CpuInfoKeys :: LowerAscii(name)
    ensures forall k :: k in r ==> r[k] == ""
  {
    LowerKeys();
    map k | k in InfoKeys :: ""
  }

  /** A line that names a field sets a key of the dict, and that key is one of the four. */
  lemma KeyLineKey(line: string)
    ensures IsKeyLine(line) ==> LowerAscii(Pieces(line)[0]) in InfoKeys
  {
    if IsKeyLine(line) {
      LowerKeysDistinct(Pieces(line)[0], Pieces(line)[0]);
    }
  }

  /**
   One pass of the loop over the lines: it raises exactly on a line that names
   a field without a second piece; otherwise a line that names a field sets
   that field's lower-case key to the second piece, and every other key keeps
   its value.
   */
  function Step(info: map<string, string>, line: string): (r: Result<map<string, string>, PiInfoError>)
    ensures r.Err? <==> IsBrokenKeyLine(line)
    ensures r.Ok? ==> r.value.Keys == info.Keys + (if IsKeyLine(line) then {LowerAscii(Pieces(line)[0])} else {})
    ensures r.Ok? && IsKeyLine(line) ==> r.value[LowerAscii(Pieces(line)[0])] == Pieces(line)[1]
    ensures r.Ok? ==> forall k :: k in info && (!IsKeyLine(line) || k != LowerAscii(Pieces(line)[0])) ==>
                        r.value[k] == info[k]
  {
    var pieces := Pieces(line);
    if pieces[0] !in CpuInfoKeys then Ok(info)
    else if |pieces| < 2 then Err(IndexError)
    else Ok(info[LowerAscii(pieces[0]) := pieces[1]])
  }

  /** The dict get_pi_info returns after reading `lines`, or the exception that leaves it; the dict always has exactly the four lower-case keys. */
  function ParseCpuInfo(lines: seq<string>): (r: Result<map<string, string>, PiInfoError>)
    ensures r.Ok? ==> r.value.Keys == InfoKeys
  {
    if lines == [] then Ok(InitialInfo())
    else match ParseCpuInfo(lines[..|lines| - 1])
      case Err(e) => Err(e)
      case Ok(info) =>
        var line := lines[|lines| - 1];
        KeyLineKey(line);
        Step(info, line)
  }

  /**
   Plugin.get_pi_info(): `lines` are the lines read from /proc/cpuinfo. An
   IOError, on opening or while reading, returns the dict as built from the
   lines read until then, which is what this method returns for those lines.
   */
  method GetPiInfo(lines: seq<string>) returns (r: Result<map<string, string>, PiInfoError>)
    ensures r == ParseCpuInfo(lines)
  {
    var info := InitialInfo();
    var i := 0;
    while i < |lines|
      invariant 0 <= i <= |lines|
      invariant ParseCpuInfo(lines[..i]) == Ok(info)
    {
      var line := lines[i];
      ParseSnoc(lines, i, info);
      var pieces := Pieces(line);
      if pieces[0] in CpuInfoKeys {
        if |pieces| < 2 {
          ErrorPersists(lines, i + 1);
          return Err(IndexError);
        }
        info := info[LowerAscii(pieces[0]) := pieces[1]];
      }
      i := i + 1;
    }
    assert lines[..i] == lines;
    r := Ok(info);
  }

  /** Reading one more line after a prefix that parsed is one more loop pass. */
  lemma ParseSnoc(lines: seq<string>, i: nat, info: map<string, string>)
    requires i < |lines| && ParseCpuInfo(lines[..i]) == Ok(info)
    ensures ParseCpuInfo(lines[..i + 1]) == Step(info, lines[i])
  {
    assert lines[..i + 1][..i] == lines[..i];
  }

  /** Once a prefix of the lines raises, the whole input raises the same way. */
  lemma {:induction false} ErrorPersists(lines: seq<string>, n: nat)
    requires n <= |lines| && ParseCpuInfo(lines[..n]).Err?
    ensures ParseCpuInfo(lines) == ParseCpuInfo(lines[..n])
    decreases |lines| - n
  {
    if n < |lines| {
      assert lines[..n + 1][..n] == lines[..n];
      ErrorPersists(lines, n + 1);
    } else {
      assert lines[..n] == lines;
    }
  }

  /** A key line without a ': ' separator makes the parse raise. */
  lemma {:induction false} BrokenLineFails(lines: seq<string>, i: nat)
    requires i < |lines| && IsBrokenKeyLine(lines[i])
    ensures ParseCpuInfo(lines).Err?
  {
    var pre := lines[..i + 1];
    assert pre[..i] == lines[..i] && pre[i] == lines[i];
    if ParseCpuInfo(lines[..i]).Err? {
      ErrorPersists(lines, i);
    } else {
      assert ParseCpuInfo(pre).Err?;
      ErrorPersists(lines, i + 1);
    }
  }

  /** The parse raises only because of a key line without a ': ' separator. */
  lemma {:induction false} FailureHasBrokenLine(lines: seq<string>) returns (i: nat)
    requires ParseCpuInfo(lines).Err?
    ensures i < |lines| && IsBrokenKeyLine(lines[i])
  {
    var init := lines[..|lines| - 1];
    if ParseCpuInfo(init).Err? {
      i := FailureHasBrokenLine(init);
      assert init[i] == lines[i];
    } else {
      i := |lines| - 1;
    }
  }

  /** A key that no line names keeps its initial value ''. */
  lemma {:induction false} ParseUnnamedKey(lines: seq<string>, name: string)
    requires name in CpuInfoKeys && ParseCpuInfo(lines).Ok?
    requires forall i :: 0 <= i < |lines| ==> Pieces(lines[i])[0] != name
    ensures LowerAscii(name) in ParseCpuInfo(lines).value
    ensures ParseCpuInfo(lines).value[LowerAscii(name)] == ""
  {
    LowerKeysDistinct(name, name);
    if lines != [] {
      var init := lines[..|lines| - 1];
      var pieces := Pieces(lines[|lines| - 1]);
      forall i | 0 <= i < |init| ensures Pieces(init[i])[0] != name {
        assert init[i] == lines[i];
      }
      ParseUnnamedKey(init, name);
      if pieces[0] in CpuInfoKeys {
        LowerKeysDistinct(pieces[0], name);
      }
    }
  }

  /** The value of a key is the second piece of the last line that names it: later lines overwrite earlier ones. */
  lemma {:induction false} ParseLastNamingLine(lines: seq<string>, name: string, i: nat)
    requires name in CpuInfoKeys && ParseCpuInfo(lines).Ok?
    requires i < |lines| && Pieces(lines[i])[0] == name
    requires forall j :: i < j < |lines| ==> Pieces(lines[j])[0] != name
    ensures |Pieces(lines[i])| >= 2
    ensures LowerAscii(name) in ParseCpuInfo(lines).value
    ensures ParseCpuInfo(lines).value[LowerAscii(name)] == Pieces(lines[i])[1]
    decreases |lines|
  {
    var init := lines[..|lines| - 1];
    var last := lines[|lines| - 1];
    var info := ParseCpuInfo(init).value;
    assert ParseCpuInfo(lines) == Step(info, last);
    var key := LowerAscii(name);
    LowerKeysDistinct(name, name);
    if i == |lines| - 1 {
      assert IsKeyLine(last) && !IsBrokenKeyLine(last);
    } else {
      assert init[i] == lines[i];
      forall j | i < j < |init| ensures Pieces(init[j])[0] != name {
        assert init[j] == lines[j];
      }
      ParseLastNamingLine(init, name, i);
      if IsKeyLine(last) {
        LowerKeysDistinct(Pieces(last)[0], name);
        assert key != LowerAscii(Pieces(last)[0]);
      }
      assert key in info;
    }
  }

  /**
   The kernel prints each field as its name, a tab, then ': ' and the value.
   Such a line's first piece is the name followed by the tab, which is none of
   the four field names, so it leaves the dict as it was.
   */
  lemma KernelFieldLinePieces(line: string)
    requires line == "Hardware\t: BCM2835"
    ensures Pieces(line)[0] == "Hardware\t"
  {
    assert StripLeft(line) == line;
    assert StripRight(line) == line;
    forall j: nat | j < 9 ensures !OccursAt(line, FieldSeparator, j) {
      assert line[j..j + 2][0] == line[j] != ':';
    }
    assert line[9..11] == FieldSeparator;
    FindAt(line, FieldSeparator, 9);
    assert line[..9] == "Hardware\t";
  }

  /** A kernel-style line for the hardware field leaves every key at the empty string. */
  lemma KernelFieldLineNamesNoKey(line: string)
    requires line == "Hardware\t: BCM2835"
    ensures ParseCpuInfo([line]) == Ok(InitialInfo())
  {
    KernelFieldLinePieces(line);
    assert !IsKeyLine(line);
    assert [line][..0] == [];
  }

  /** The four field names are spelt in letters only: no tab, colon or whitespace. */
  lemma KeysAreLetters(name: string)
    requires name in CpuInfoKeys
    ensures |name| > 0
    ensures forall j :: 0 <= j < |name| ==> 'A' <= name[j] <= 'z'
  {
    assert name == "Hardware" || name == "Revision" || name == "Serial" || name == "Model";
  }

  /**
   A field line as the kernel prints it: the name, padded with one or more
   tabs, then ': ' and the value (`Hardware\t: …`, `Serial\t\t: …`).
   */
  function KernelLine(name: string, tabs: nat, value: string): string
  {
    name + seq(tabs, _ => '\t') + FieldSeparator + value
  }

  ghost predicate IsKernelLine(line: string)
  {
    exists name, tabs: nat, value :: name in CpuInfoKeys && tabs >= 1 && line == KernelLine(name, tabs, value)
  }

  /**
   Whatever its value and however many tabs pad it, a kernel-style line for
   any of the four fields names no key: the first tab stays in its first piece.
   */
  lemma KernelLineNamesNoKey(name: string, tabs: nat, value: string)
    requires name in CpuInfoKeys && tabs >= 1
    ensures !IsKeyLine(KernelLine(name, tabs, value))
  {
    var line := KernelLine(name, tabs, value);
    var n := |name|;
    var m := n + tabs;
    KeysAreLetters(name);
    assert forall j :: n <= j < m ==> line[j] == '\t';
    assert line[0] == name[0] && line[m] == ':';
    assert StripLeft(line) == line;
    StripRightPrefix(line);
    var s := StripRight(line);
    assert Strip(line) == s;
    assert !IsSpace(line[m]);
    assert s[n] == '\t';
    forall j: nat | j < m ensures !OccursAt(s, FieldSeparator, j) {
      if j < n {
        assert s[j] == line[j] == name[j];
      } else {
        assert s[j] == line[j] == '\t';
      }
      assert s[j] != FieldSeparator[0];
    }
    SplitHead(s, FieldSeparator);
    var head := Pieces(line)[0];
    assert |head| > n && head[n] == '\t';
    if head in CpuInfoKeys {
      KeysAreLetters(head);
    }
  }

  /** A whole file of kernel-style field lines leaves every key at the empty string. */
  lemma {:induction false} KernelFileNamesNoKey(lines: seq<string>)
    requires forall i :: 0 <= i < |lines| ==> IsKernelLine(lines[i])
    ensures ParseCpuInfo(lines) == Ok(InitialInfo())
  {
    if lines != [] {
      var init := lines[..|lines| - 1];
      var last := lines[|lines| - 1];
      forall i | 0 <= i < |init| ensures IsKernelLine(init[i]) {
        assert init[i] == lines[i];
      }
      KernelFileNamesNoKey(init);
      assert IsKernelLine(last);
      var name, tabs: nat, value :| name in CpuInfoKeys && tabs >= 1 && last == KernelLine(name, tabs, value);
      KernelLineNamesNoKey(name, tabs, value);
    }
  }
}
