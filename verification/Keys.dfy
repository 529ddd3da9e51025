/** The key arithmetic of resources/keys.py: filename keys, wrapping, and the way back from a
    cracked key to the video key. */
module Keys {
  import opened Bytes
  import opened BlockMask

  const FILENAME_FIX := ["MDAQ001_OPNew_Part1", "MDAQ001_OPNew_Part2_PlayerBoy", "MDAQ001_OPNew_Part2_PlayerGirl"]

  /** `(value & KEY_MASK) or 1 << 56`. */
  function WrapKey(value: int): (key: nat)
    ensures 1 <= key <= KEY_SPACE && key % KEY_SPACE == value % KEY_SPACE
  {
    if value % KEY_SPACE == 0 then KEY_SPACE else value % KEY_SPACE
  }

  /** The name read as a number in base 3, with characters for digits. */
  ghost function NameSum(name: string): nat {
    if name == "" then 0 else name[|name| - 1] as int + 3 * NameSum(name[..|name| - 1])
  }

  /** The key term of a file name. The three renamed opening files share the old name's. */
  ghost function FilenameKey(name: string): nat {
    WrapKey(NameSum(if name in FILENAME_FIX then "MDAQ001_OP" else name))
  }

  function Pow3(n: nat): nat {
    if n == 0 then 1 else 3 * Pow3(n - 1)
  }

  /** Three times for each character that follows: a name in two parts. */
  lemma {:induction false} NameInParts(a: string, b: string)
    ensures NameSum(a + b) == NameSum(a) * Pow3(|b|) + NameSum(b)
  {
    if b == "" {
      assert a + b == a;
    } else {
      var front, name := b[..|b| - 1], a + b;
      NameInParts(a, front);
      assert name[..|name| - 1] == a + front;
      var sum, p, last: nat := NameSum(a), Pow3(|front|), b[|b| - 1] as int;
      OneMoreDigit(sum, p, NameSum(front), last);
    }
  }

  /** And of a name of up to three characters, their codes times powers of 3. */
  lemma ShortName(a: char, b: char, c: char)
    ensures NameSum([a]) == a as int
    ensures NameSum([a, b]) == 3 * a as int + b as int
    ensures NameSum([a, b, c]) == 9 * a as int + 3 * b as int + c as int
  {
    assert [a][..0] == "" && [a, b][..1] == [a] && [a, b, c][..2] == [a, b];
  }

  lemma FourMore(front: string, a: char, b: char, c: char, d: char)
    ensures NameSum(front + [a, b, c, d])
         == 81 * NameSum(front) + 27 * a as int + 9 * b as int + 3 * c as int + d as int
  {
    hide NameSum;
    ShortName(a, b, c);
    ShortName(d, d, d);
    assert Pow3(1) == 3 && Pow3(4) == 81;
    assert [a, b, c] + [d] == [a, b, c, d];
    NameInParts([a, b, c], [d]);
    NameInParts(front, [a, b, c, d]);
  }

  lemma OneMoreDigit(a: int, p: int, f: int, c: int)
    ensures c + 3 * (a * p + f) == a * (3 * p) + (c + 3 * f)
  {
    assert 3 * (a * p) == a * (3 * p);
  }

  /** The renamed files have the key of the name they had, and every other file that of its own. */
  lemma RenamedFilesKeepTheirKey(name: string)
    ensures FilenameKey(name)
         == WrapKey(NameSum(if || name == "MDAQ001_OPNew_Part1" || name == "MDAQ001_OPNew_Part2_PlayerBoy"
                               || name == "MDAQ001_OPNew_Part2_PlayerGirl" then "MDAQ001_OP" else name))
  {
    hide NameSum;
  }

  /** The keys of three real files. */
  lemma RealFiles()
    ensures FilenameKey("MDAQ001_OPNew_Part1") == 2180990
    ensures FilenameKey("MDAQ001_OPNew_Part2_PlayerGirl") == 2180990
    ensures FilenameKey("Cs_NodKrai_AQ60161901_BSHMO_Boy") == 24858672235870171
  {
    hide NameSum;
    ShortName('M', 'D', 'D');
    FourMore("MD", 'A', 'Q', '0', '0');
    assert "MD" + "AQ00" == "MDAQ00";
    FourMore("MDAQ00", '1', '_', 'O', 'P');
    assert "MDAQ00" + "1_OP" == "MDAQ001_OP";
    ShortName('C', 's', '_');
    FourMore("Cs_", 'N', 'o', 'd', 'K');
    assert "Cs_" + "NodK" == "Cs_NodK";
    FourMore("Cs_NodK", 'r', 'a', 'i', '_');
    assert "Cs_NodK" + "rai_" == "Cs_NodKrai_";
    FourMore("Cs_NodKrai_", 'A', 'Q', '6', '0');
    assert "Cs_NodKrai_" + "AQ60" == "Cs_NodKrai_AQ60";
    FourMore("Cs_NodKrai_AQ60", '1', '6', '1', '9');
    assert "Cs_NodKrai_AQ60" + "1619" == "Cs_NodKrai_AQ601619";
    FourMore("Cs_NodKrai_AQ601619", '0', '1', '_', 'B');
    assert "Cs_NodKrai_AQ601619" + "01_B" == "Cs_NodKrai_AQ60161901_B";
    FourMore("Cs_NodKrai_AQ60161901_B", 'S', 'H', 'M', 'O');
    assert "Cs_NodKrai_AQ60161901_B" + "SHMO" == "Cs_NodKrai_AQ60161901_BSHMO";
    FourMore("Cs_NodKrai_AQ60161901_BSHMO", '_', 'B', 'o', 'y');
    assert "Cs_NodKrai_AQ60161901_BSHMO" + "_Boy" == "Cs_NodKrai_AQ60161901_BSHMO_Boy";
  }

  method CalculateKeyFromFilename(filename: string) returns (key: nat)
    ensures key == FilenameKey(filename)
  {
    var name := if filename in FILENAME_FIX then "MDAQ001_OP" else filename;
    var sum := 0;
    for i := 0 to |name|
      invariant sum == NameSum(name[..i])
    {
      assert name[..i + 1][..i] == name[..i];
      sum := name[i] as int + 3 * sum;
    }
    assert name[..|name|] == name;
    key := WrapKey(sum);
  }

  /** `Keys.decryption_key`, once the video key is found. */
  method DecryptionKey(videoKey: int, stem: string) returns (combined: nat)
    ensures combined == Combined(videoKey, stem) && 1 <= combined <= KEY_SPACE
  {
    var filenameKey := CalculateKeyFromFilename(stem);
    combined := WrapKey(filenameKey + videoKey);
  }

  ghost function Combined(videoKey: int, stem: string): nat {
    WrapKey(FilenameKey(stem) + videoKey)
  }

  /** `video_key_from`. */
  method VideoKeyFrom(combined: int, stem: string) returns (videoKey: nat)
    ensures videoKey == (combined - FilenameKey(stem)) % KEY_SPACE
  {
    var filenameKey := CalculateKeyFromFilename(stem);
    videoKey := (combined - filenameKey) % KEY_SPACE;
  }

  lemma DifferenceModulo(a: int, b: int, c: int)
    requires a % KEY_SPACE == (b + c) % KEY_SPACE
    ensures (a - b) % KEY_SPACE == c % KEY_SPACE
  {
    var q := a / KEY_SPACE - (b + c) / KEY_SPACE + c / KEY_SPACE;
    assert a - b == KEY_SPACE * q + c % KEY_SPACE;
    DivisionUnique(a - b, KEY_SPACE, q, c % KEY_SPACE);
  }

  /** From a video key through the file's combined key and its block mask, the cracker's way back
      ends at the same video key modulo 2^56, for every stem. */
  lemma CrackedKeyIsVideoKey(videoKey: int, stem: string)
    ensures var mask := MaskOf(SeedsOf(Combined(videoKey, stem)));
      (KeyFromMask(mask) - FilenameKey(stem)) % KEY_SPACE == videoKey % KEY_SPACE
  {
    hide MaskOf, KeyFromMask, SeedsOf, NameSum;
    var combined := Combined(videoKey, stem);
    KeyFromMaskOfKey(combined);
    var back := KeyFromMask(MaskOf(SeedsOf(combined)));
    RemainderKept(combined);
    DifferenceModulo(back, FilenameKey(stem), videoKey);
  }

  lemma RemainderKept(value: int)
    ensures value % KEY_SPACE % KEY_SPACE == value % KEY_SPACE
  {}

  /** The whole round trip: exact if and only if the video key fits in 56 bits. */
  method CrackRoundTrip(videoKey: int, stem: string) returns (recovered: nat)
    ensures recovered == videoKey <==> 0 <= videoKey < KEY_SPACE
  {
    hide MaskOf, KeyFromMask, SeedsOf;
    var combined := DecryptionKey(videoKey, stem);
    var mask := BuildMask(combined);
    recovered := VideoKeyFrom(KeyFromMask(mask), stem);
    CrackedKeyIsVideoKey(videoKey, stem);
    assert recovered == videoKey % KEY_SPACE;
  }
}
