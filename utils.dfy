/**
 * Helpers of chroma_ops/utils.py: persist-dir validation, `seq_id` decoding,
 * the disk-space guard, the Chroma version gate of `list_collections`, and
 * reading the ids of a persisted index.
 */
module Utils {
  import opened Wrappers
  import opened Storage

  // ------------------------------------------------ validate_chroma_persist_dir

  datatype DirError = PersistDirMissing | NotChromaDir

  /**
   * `validate_chroma_persist_dir`: `os.path.exists` is false for a missing
   * path and for one whose `stat` fails, so only a `Present` root passes.
   */
  function ValidatePersistDir(root: Stat, entries: map<string, Entry>): (r: Option<DirError>)
    ensures r == Some(PersistDirMissing) <==> root != Present
    ensures r == Some(NotChromaDir) <==> root == Present && "chroma.sqlite3" !in entries
  {
    if root != Present then Some(PersistDirMissing)
    else if "chroma.sqlite3" !in entries then Some(NotChromaDir)
    else None
  }

  // ------------------------------------------------------------- decode_seq_id

  function Pow256(w: nat): (r: nat)
    ensures r >= 1
  {
    if w == 0 then 1 else 256 * Pow256(w - 1)
  }

  /** The unsigned big-endian value of `b` (`int.from_bytes(b, "big")`). */
  function BigEndian(b: seq<byte>): nat
  {
    if |b| == 0 then 0 else BigEndian(b[..|b| - 1]) * 256 + b[|b| - 1] as int
  }

  /** The `w`-byte big-endian encoding of `n` (`n.to_bytes(w, "big")`). */
  function EncodeBigEndian(n: nat, w: nat): (r: seq<byte>)
    ensures |r| == w
  {
    if w == 0 then [] else EncodeBigEndian(n / 256, w - 1) + [(n % 256) as byte]
  }

  lemma {:induction false} BigEndianBound(b: seq<byte>)
    ensures BigEndian(b) < Pow256(|b|)
  {
    if |b| > 0 {
      var init := b[..|b| - 1];
      BigEndianBound(init);
      var hi := BigEndian(init);
      var p := Pow256(|init|);
      assert hi <= p - 1;
      assert hi * 256 <= (p - 1) * 256;
      assert BigEndian(b) == hi * 256 + b[|b| - 1] as int;
    }
  }

  /** Decoding a `w`-byte encoding gives back the number. */
  lemma {:induction false} BigEndianOfEncode(n: nat, w: nat)
    requires n < Pow256(w)
    ensures BigEndian(EncodeBigEndian(n, w)) == n
  {
    if w > 0 {
      var e := EncodeBigEndian(n, w);
      var q := n / 256;
      assert q < Pow256(w - 1);
      BigEndianOfEncode(q, w - 1);
      assert e[..w - 1] == EncodeBigEndian(q, w - 1);
      assert e[w - 1] as int == n % 256;
      assert BigEndian(e) == q * 256 + n % 256;
    }
  }

  /** Encoding the decoded value at the same width gives back the bytes. */
  lemma {:induction false} EncodeOfBigEndian(b: seq<byte>)
    ensures EncodeBigEndian(BigEndian(b), |b|) == b
  {
    if |b| > 0 {
      var init := b[..|b| - 1];
      EncodeOfBigEndian(init);
      var v := BigEndian(b);
      assert v == BigEndian(init) * 256 + b[|b| - 1] as int;
      assert v / 256 == BigEndian(init);
      assert v % 256 == b[|b| - 1] as int;
      assert init + [b[|b| - 1]] == b;
    }
  }

  datatype SeqIdError = UnknownSeqIdLength(length: nat)

  /**
   * `decode_seq_id`: an int is returned as it is; an 8- or 24-byte blob is read
   * as an unsigned big-endian number; any other length is a `ValueError`.
   */
  function DecodeSeqId(v: SeqIdValue): (r: Result<int, SeqIdError>)
    ensures v.SeqInt? ==> r == Ok(v.n)
    ensures v.SeqBytes? ==> (r.Ok? <==> |v.bytes| == 8 || |v.bytes| == 24)
    ensures v.SeqBytes? && r.Ok? ==> 0 <= r.value < Pow256(|v.bytes|)
    ensures v.SeqBytes? && r.Err? ==> r.error == UnknownSeqIdLength(|v.bytes|)
  {
    match v
    case SeqInt(n) => Ok(n)
    case SeqBytes(b) =>
      if |b| == 8 || |b| == 24 then
        BigEndianBound(b);
        Ok(BigEndian(b))
      else Err(UnknownSeqIdLength(|b|))
  }

  /** At the two accepted widths, decoding inverts big-endian encoding. */
  lemma DecodeSeqIdInvertsEncoding(n: nat, w: nat)
    requires (w == 8 || w == 24) && n < Pow256(w)
    ensures DecodeSeqId(SeqBytes(EncodeBigEndian(n, w))) == Ok(n)
  {
    BigEndianOfEncode(n, w);
  }

  /** ... and the bytes are recovered from the decoded value. */
  lemma DecodeSeqIdRecoversBytes(b: seq<byte>)
    requires |b| == 8 || |b| == 24
    ensures DecodeSeqId(SeqBytes(b)).Ok?
    ensures EncodeBigEndian(DecodeSeqId(SeqBytes(b)).value, |b|) == b
  {
    EncodeOfBigEndian(b);
  }

  // ---------------------------------------------------------- check_disk_space

  /**
   * `check_disk_space` on the measured sizes: the target needs 10% headroom
   * over the source. Computed exactly as `10 * free >= 11 * size`.
   */
  function CheckDiskSpace(sourceSize: nat, freeSpace: nat): (r: bool)
    ensures r <==> freeSpace as real >= 1.1 * sourceSize as real
  {
    !(10 * freeSpace < 11 * sourceSize)
  }

  /** The three cases of the unit test: 10x, 1x and exactly 1.1x of a 1000-byte source. */
  lemma CheckDiskSpaceBoundaries()
    ensures CheckDiskSpace(1000, 10000)
    ensures !CheckDiskSpace(1000, 1000)
    ensures CheckDiskSpace(1000, 1100)
    ensures !CheckDiskSpace(1000, 1099)
  {
  }

  // ---------------------------------------------------------- version gate

  /** `s.split(sep)`: the maximal separator-free pieces, empty ones included. */
  function SplitOn(s: string, sep: char): (parts: seq<string>)
    ensures |parts| >= 1
    decreases |s|
  {
    if |s| == 0 then [""]
    else
      var rest := SplitOn(s[1..], sep);
      if s[0] == sep then [""] + rest else [[s[0]] + rest[0]] + rest[1..]
  }

  function JoinWith(parts: seq<string>, sep: char): string
    requires |parts| >= 1
  {
    if |parts| == 1 then parts[0] else parts[0] + [sep] + JoinWith(parts[1..], sep)
  }

  /** Splitting loses nothing: joining the pieces back gives the string. */
  lemma {:induction false} SplitOnJoin(s: string, sep: char)
    ensures JoinWith(SplitOn(s, sep), sep) == s
    ensures forall p | p in SplitOn(s, sep) :: sep !in p
    decreases |s|
  {
    if |s| > 0 {
      var rest := SplitOn(s[1..], sep);
      SplitOnJoin(s[1..], sep);
      if s[0] == sep {
        assert SplitOn(s, sep) == [""] + rest;
        assert ([""] + rest)[1..] == rest;
      } else {
        var parts := SplitOn(s, sep);
        assert parts == [[s[0]] + rest[0]] + rest[1..];
        assert rest[0] in rest;
        if |rest| > 1 {
          assert parts[1..] == rest[1..];
          assert JoinWith(rest, sep) == rest[0] + [sep] + JoinWith(rest[1..], sep);
        }
        assert [s[0]] + s[1..] == s;
        forall p | p in parts ensures sep !in p {
          if p != [s[0]] + rest[0] {
            assert p in rest;
          }
        }
      }
    }
  }

  predicate IsDigit(c: char) { '0' <= c <= '9' }

  function DigitsValue(s: string): nat
    requires forall i | 0 <= i < |s| :: IsDigit(s[i])
  {
    if |s| == 0 then 0
    else
      assert IsDigit(s[|s| - 1]);
      DigitsValue(s[..|s| - 1]) * 10 + (s[|s| - 1] as int - '0' as int)
  }

  /**
   * `int(part)` on a part of a version string: a part of decimal digits has
   * its value; any other part of a Chroma version (such as "0rc1") raises.
   * Signs, blanks and `_` separators, which `int` also accepts, do not occur
   * in version strings and are not modelled.
   */
  function ParseInt(part: string): Option<nat>
  {
    if |part| > 0 && forall i | 0 <= i < |part| :: IsDigit(part[i]) then Some(DigitsValue(part))
    else None
  }

  datatype VersionError = NonNumericPart(part: string)

  function ParseParts(parts: seq<string>): (r: Result<seq<nat>, VersionError>)
    ensures r.Ok? ==> |r.value| == |parts|
    ensures r.Ok? ==> forall i | 0 <= i < |parts| :: ParseInt(parts[i]) == Some(r.value[i])
    ensures r.Err? ==> exists i | 0 <= i < |parts| :: ParseInt(parts[i]).None?
  {
    if parts == [] then Ok([])
    else match ParseInt(parts[0])
      case None => Err(NonNumericPart(parts[0]))
      case Some(n) =>
        match ParseParts(parts[1..])
        case Err(e) => Err(e)
        case Ok(rest) => Ok([n] + rest)
  }

  /** `tuple(int(part) for part in version.split("."))`. */
  function ParseVersion(version: string): Result<seq<nat>, VersionError>
  {
    ParseParts(SplitOn(version, '.'))
  }

  /** Python's `<` on tuples of ints. */
  predicate TupleLess(a: seq<int>, b: seq<int>)
  {
    if |b| == 0 then false
    else if |a| == 0 then true
    else if a[0] != b[0] then a[0] < b[0]
    else TupleLess(a[1..], b[1..])
  }

  /** Lexicographic order spelled out: a proper prefix, or smaller at the first difference. */
  ghost predicate LexLess(a: seq<int>, b: seq<int>)
  {
    || (|a| < |b| && a == b[..|a|])
    || (exists i | 0 <= i < |a| && i < |b| :: a[..i] == b[..i] && a[i] < b[i])
  }

  lemma {:induction false} TupleLessIsLexLess(a: seq<int>, b: seq<int>)
    ensures TupleLess(a, b) <==> LexLess(a, b)
  {
    if |b| == 0 {
    } else if |a| == 0 {
      assert a == b[..0];
    } else if a[0] != b[0] {
      LexLessAtHead(a, b);
    } else {
      TupleLessIsLexLess(a[1..], b[1..]);
      LexLessTail(a, b);
    }
  }

  /** Tuples with different first parts are ordered by them. */
  lemma LexLessAtHead(a: seq<int>, b: seq<int>)
    requires |a| > 0 && |b| > 0 && a[0] != b[0]
    ensures LexLess(a, b) <==> a[0] < b[0]
  {
    assert a[..0] == b[..0];
    assert forall i | 0 < i <= |a| && i <= |b| :: a[..i][0] == a[0] && b[..i][0] == b[0];
    assert |a| <= |b| ==> b[..|a|][0] == b[0];
  }

  /** Tuples with equal first parts are ordered by the rest. */
  lemma LexLessTail(a: seq<int>, b: seq<int>)
    requires |a| > 0 && |b| > 0 && a[0] == b[0]
    ensures LexLess(a, b) <==> LexLess(a[1..], b[1..])
  {
    if LexLess(a[1..], b[1..]) {
      if |a[1..]| < |b[1..]| && a[1..] == b[1..][..|a[1..]|] {
        assert a == b[..|a|];
      } else {
        var i :| 0 <= i < |a[1..]| && i < |b[1..]| && a[1..][..i] == b[1..][..i] && a[1..][i] < b[1..][i];
        assert a[..i + 1] == b[..i + 1];
      }
    }
    if LexLess(a, b) {
      if |a| < |b| && a == b[..|a|] {
        assert a[1..] == b[1..][..|a[1..]|];
      } else {
        var i :| 0 <= i < |a| && i < |b| && a[..i] == b[..i] && a[i] < b[i];
        assert i > 0;
        assert a[1..][..i - 1] == b[1..][..i - 1];
        assert a[1..][i - 1] < b[1..][i - 1];
      }
    }
  }


  /** Tuple order is a strict total order: exactly one of a < b, a == b, b < a. */
  lemma {:induction false} TupleLessTrichotomy(a: seq<int>, b: seq<int>)
    ensures !(TupleLess(a, b) && TupleLess(b, a))
    ensures !(TupleLess(a, b) && a == b)
    ensures TupleLess(a, b) || a == b || TupleLess(b, a)
  {
    if |a| > 0 && |b| > 0 && a[0] == b[0] {
      TupleLessTrichotomy(a[1..], b[1..]);
      if a[1..] == b[1..] {
        assert a == [a[0]] + a[1..] && b == [b[0]] + b[1..];
      }
    }
  }

  lemma {:induction false} TupleLessTransitive(a: seq<int>, b: seq<int>, c: seq<int>)
    requires TupleLess(a, b) && TupleLess(b, c)
    ensures TupleLess(a, c)
  {
    if |a| > 0 && a[0] == b[0] && b[0] == c[0] {
      TupleLessTransitive(a[1..], b[1..], c[1..]);
    }
  }

  /**
   * The gate of `list_collections`: true when the installed Chroma is older
   * than 0.6.0 (so `list_collections()` already returns collection objects).
   * A non-numeric version part raises.
   */
  function UsesLegacyListing(version: string): (r: Result<bool, VersionError>)
    ensures r.Ok? <==> ParseVersion(version).Ok?
    ensures r.Ok? ==> (r.value <==> LexLess(ParseVersion(version).value, [0, 6, 0]))
  {
    match ParseVersion(version)
    case Err(e) => Err(e)
    case Ok(parts) =>
      TupleLessIsLexLess(parts, [0, 6, 0]);
      Ok(TupleLess(parts, [0, 6, 0]))
  }

  lemma SplitOnNoSep(a: string, sep: char)
    requires sep !in a
    ensures SplitOn(a, sep) == [a]
  {
    if |a| > 0 {
      SplitOnNoSep(a[1..], sep);
      assert [a[0]] + a[1..] == a;
    }
  }

  lemma SplitOnCons(a: string, b: string, sep: char)
    requires sep !in a
    ensures SplitOn(a + [sep] + b, sep) == [a] + SplitOn(b, sep)
  {
    if |a| == 0 {
      assert a + [sep] + b == [sep] + b;
      assert ([sep] + b)[1..] == b;
    } else {
      SplitOnCons(a[1..], b, sep);
      assert (a + [sep] + b)[1..] == a[1..] + [sep] + b;
      assert [a[0]] + a[1..] == a;
    }
  }

  lemma Split3(a: string, b: string, c: string)
    requires '.' !in a && '.' !in b && '.' !in c
    ensures SplitOn(a + "." + b + "." + c, '.') == [a, b, c]
  {
    SplitOnCons(a, b + "." + c, '.');
    SplitOnCons(b, c, '.');
    SplitOnNoSep(c, '.');
    assert a + "." + b + "." + c == a + ['.'] + (b + ['.'] + c);
  }

  lemma ParseThree(a: string, b: string, c: string, x: nat, y: nat, z: nat)
    requires ParseInt(a) == Some(x) && ParseInt(b) == Some(y) && ParseInt(c) == Some(z)
    ensures ParseParts([a, b, c]) == Ok([x, y, z])
  {
    assert [c][1..] == [];
    assert ParseParts([]) == Ok([]);
    assert [z] + [] == [z];
    assert ParseParts([c]) == Ok([z]);
    assert [b, c][1..] == [c];
    assert ParseParts([b, c]) == Ok([y] + [z]);
    assert [a, b, c][1..] == [b, c];
    assert [y] + [z] == [y, z];
    assert ParseParts([b, c]) == Ok([y, z]);
    assert ParseParts([a, b, c]) == Ok([x] + [y, z]);
    assert [x] + [y, z] == [x, y, z];
  }

  lemma DigitValues()
    ensures DigitsValue("0") == 0 && DigitsValue("1") == 1 && DigitsValue("5") == 5
    ensures DigitsValue("6") == 6 && DigitsValue("23") == 23
    ensures ParseInt("0") == Some(0) && ParseInt("1") == Some(1) && ParseInt("5") == Some(5)
    ensures ParseInt("6") == Some(6) && ParseInt("23") == Some(23)
  {
    assert "0"[..0] == "" && "1"[..0] == "" && "5"[..0] == "" && "6"[..0] == "";
    assert "23"[..1] == "2" && "2"[..0] == "";
  }

  /** Releases before 0.6.0 take the legacy listing path; 0.6.0 and later do not. */
  lemma VersionGateOld()
    ensures UsesLegacyListing("0.5.23") == Ok(true)
  {
    assert "0.5.23" == "0" + "." + "5" + "." + "23";
    Split3("0", "5", "23");
    DigitValues();
    ParseThree("0", "5", "23", 0, 5, 23);
  }

  lemma VersionGateCurrent()
    ensures UsesLegacyListing("0.6.0") == Ok(false)
  {
    assert "0.6.0" == "0" + "." + "6" + "." + "0";
    Split3("0", "6", "0");
    DigitValues();
    ParseThree("0", "6", "0", 0, 6, 0);
    assert !TupleLess([0, 6, 0], [0, 6, 0]);
  }

  lemma VersionGateMajor()
    ensures UsesLegacyListing("1.0.0") == Ok(false)
  {
    assert "1.0.0" == "1" + "." + "0" + "." + "0";
    Split3("1", "0", "0");
    DigitValues();
    ParseThree("1", "0", "0", 1, 0, 0);
  }

  /** A two-part "0.6" is a proper prefix of (0, 6, 0), hence older. */
  lemma VersionGateShort()
    ensures UsesLegacyListing("0.6") == Ok(true)
  {
    SplitOnCons("0", "6", '.');
    SplitOnNoSep("6", '.');
    assert "0.6" == "0" + ['.'] + "6";
    DigitValues();
  }

  /** A pre-release suffix makes `int()` raise. */
  lemma VersionGateNonNumeric()
    ensures UsesLegacyListing("0.6.0rc1").Err?
  {
    assert "0.6.0rc1" == "0" + "." + "6" + "." + "0rc1";
    Split3("0", "6", "0rc1");
    assert ParseInt("0rc1") == None by { assert !IsDigit("0rc1"[1]); }
    assert ParseParts(["0rc1"]).Err?;
    assert ParseParts(["6", "0rc1"]).Err?;
  }

  // ---------------------------------------------------------- list_collections

  function GetCollection(cs: seq<CollectionRow>, name: string): (r: Option<CollectionRow>)
    ensures r.Some? ==> r.value in cs && r.value.name == name
    ensures r.None? <==> forall c | c in cs :: c.name != name
  {
    if cs == [] then None
    else if cs[0].name == name then Some(cs[0])
    else GetCollection(cs[1..], name)
  }

  predicate NamesDistinct(cs: seq<CollectionRow>)
  {
    forall i, j | 0 <= i < j < |cs| :: cs[i].name != cs[j].name
  }

  lemma GetCollectionDistinct(cs: seq<CollectionRow>, i: nat)
    requires NamesDistinct(cs) && i < |cs|
    ensures GetCollection(cs, cs[i].name) == Some(cs[i])
  {
    if i > 0 {
      assert NamesDistinct(cs[1..]);
      GetCollectionDistinct(cs[1..], i - 1);
    }
  }

  /**
   * `list_collections`: before 0.6.0 the client's listing is already the
   * collections; from 0.6.0 on it lists names and each is resolved with
   * `get_collection`. With the names a database guarantees unique, both give
   * the collections in listing order.
   */
  method ListCollections(version: string, listed: seq<CollectionRow>) returns (r: Result<seq<CollectionRow>, VersionError>)
    ensures r.Err? <==> ParseVersion(version).Err?
    ensures r.Ok? ==> |r.value| == |listed|
    ensures r.Ok? ==> forall i | 0 <= i < |listed| :: r.value[i].name == listed[i].name
    ensures r.Ok? && NamesDistinct(listed) ==> r.value == listed
  {
    var legacy := UsesLegacyListing(version);
    if legacy.Err? {
      return Err(legacy.error);
    }
    if legacy.value {
      return Ok(listed);
    }
    var names := seq(|listed|, i requires 0 <= i < |listed| => listed[i].name);
    var collections: seq<CollectionRow> := [];
    for k := 0 to |names|
      invariant |collections| == k
      invariant forall i | 0 <= i < k :: collections[i] == GetCollection(listed, names[i]).value
      invariant forall i | 0 <= i < k :: collections[i].name == listed[i].name
    {
      var c := GetCollection(listed, names[k]);
      assert listed[k] in listed;
      collections := collections + [c.value];
    }
    if NamesDistinct(listed) {
      forall i | 0 <= i < |listed| ensures collections[i] == listed[i] {
        GetCollectionDistinct(listed, i);
      }
    }
    return Ok(collections);
  }

  // --------------------------------------------------------- get_hnsw_index_ids

  datatype IndexError = IndexLoadFailure

  /** `get_hnsw_index_ids`: the live labels of the index stored in a directory entry. */
  function IndexIds(e: Option<Entry>): (r: Result<seq<int>, IndexError>)
    ensures r.Ok? <==> e.Some? && e.value.Dir? && e.value.index.Some?
    ensures r.Ok? ==> r.value == e.value.index.value.ids
  {
    if e.Some? && e.value.Dir? && e.value.index.Some? then Ok(e.value.index.value.ids)
    else Err(IndexLoadFailure)
  }
}
