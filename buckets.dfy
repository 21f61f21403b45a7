/**
 * The destination half of `copy_file` in tasks/task01.py: the extension
 * bucket a file is sorted into, the path it is copied to, and the copy
 * operation that one call performs.
 */
module Buckets {

  import opened PathNames

  /** The bucket for files whose suffix is empty. */
  const NoExtension: Name := "no_extension"

  /**
   * The bucket of a file: its final suffix with the leading dot stripped and
   * lowercased, or NoExtension when that leaves nothing. A bucket is never
   * empty, holds no dot (so it never starts with one) and no upper-case letter.
   */
  function Bucket(name: Name): (b: Name)
    ensures |b| > 0 && b[0] != '.'
    ensures forall i :: 0 <= i < |b| ==> b[i] != '.' && !IsUpper(b[i])
  {
    var ext := Lower(LStrip(Suffix(name), '.'));
    ExtensionShape(name);
    SentinelShape();
    if ext == [] then NoExtension else ext
  }

  /** The lowercased, dot-stripped suffix holds neither a dot nor an upper-case letter. */
  lemma ExtensionShape(name: Name)
    ensures forall i :: 0 <= i < |Lower(LStrip(Suffix(name), '.'))| ==>
      Lower(LStrip(Suffix(name), '.'))[i] != '.' && !IsUpper(Lower(LStrip(Suffix(name), '.'))[i])
  {
    var s := LStrip(Suffix(name), '.');
    LStripOfSuffix(name);
    LowerFacts(s);
    forall i | 0 <= i < |s|
      ensures s[i] != '.'
    {
      assert s[i] in s;
    }
  }

  lemma SentinelShape()
    ensures forall i :: 0 <= i < |NoExtension| ==> NoExtension[i] != '.' && !IsUpper(NoExtension[i])
  {
  }

  /** Stripping dots from a suffix removes exactly its one leading dot. */
  lemma LStripOfSuffix(name: Name)
    ensures Suffix(name) != [] ==> LStrip(Suffix(name), '.') == Suffix(name)[1..]
    ensures '.' !in LStrip(Suffix(name), '.')
  {
    var s := Suffix(name);
    var r := LStrip(s, '.');
    if s != [] {
      assert s[1..][0] in s[1..];
      assert LStrip(s, '.') == LStrip(s[1..], '.');
    }
  }

  /** `output / bucket / name`: where copy_file puts a file called `name`. */
  function Destination(output: Path, name: Name): Path {
    output + [Bucket(name), name]
  }

  /** One scheduled `shutil.copy(src, dst)`. */
  datatype CopyOp = CopyOp(src: Path, dst: Path)

  /**
   * The effect of `copy_file(file, output)`: when none of its steps raises,
   * exactly one copy of `file` to `output / bucket / file.name` under its
   * original name; when one raises (`fails`), the error is caught and logged
   * and nothing is copied.
   */
  function CopyFile(file: Path, fails: bool, output: Path): (ops: seq<CopyOp>)
    requires |file| > 0
    ensures fails ==> ops == []
    ensures !fails ==> |ops| == 1 && ops[0].src == file
    ensures !fails ==> |ops[0].dst| == |output| + 2 && ops[0].dst[..|output|] == output
    ensures !fails ==> ops[0].dst[|output|] == Bucket(Last(file)) && Last(ops[0].dst) == Last(file)
  {
    if fails then [] else [CopyOp(file, Destination(output, Last(file)))]
  }

  /** A name with a non-empty stem and a dot-free extension goes to the lowercased extension. */
  lemma BucketOfExtension(stem: Name, ext: string)
    requires |stem| > 0 && |ext| > 0 && '.' !in ext
    ensures Bucket(stem + ['.'] + ext) == Lower(ext)
  {
    SuffixOfSplit(stem, ext);
    LStripOfSuffix(stem + ['.'] + ext);
    assert (['.'] + ext)[1..] == ext;
  }

  /** A name without a suffix (no dot after its first character, or a trailing dot) goes to NoExtension. */
  lemma BucketWithoutSuffix(name: Name)
    requires |name| == 0 || name[|name| - 1] == '.' || '.' !in name[1..]
    ensures Bucket(name) == NoExtension
  {
    SuffixEmptyIff(name);
  }

  /**
   * A file lands in NoExtension exactly when its suffix is empty or its
   * extension, lowercased, spells the sentinel itself.
   */
  lemma BucketIsSentinelIff(name: Name)
    ensures Bucket(name) == NoExtension <==>
      (Suffix(name) == [] || Lower(Suffix(name)[1..]) == NoExtension)
  {
    LStripOfSuffix(name);
  }

  /** The bucket ignores the case of the name: `a.PDF` and `a.pdf` share a bucket. */
  lemma BucketIgnoresCase(name: Name)
    ensures Bucket(Lower(name)) == Bucket(name)
  {
    var s := Suffix(name);
    SuffixLower(name);
    LStripLower(s);
    LowerIdempotent(LStrip(s, '.'));
  }

  /** Two files get the same destination under one output root exactly when their names are equal. */
  lemma DestinationsCollideIffSameName(output: Path, a: Name, b: Name)
    ensures Destination(output, a) == Destination(output, b) <==> a == b
  {
    if Destination(output, a) == Destination(output, b) {
      assert Destination(output, a)[|output| + 1] == a;
    }
  }

  /** Only the final suffix counts, and its case is folded. */
  lemma BucketOfReportPdf()
    ensures Bucket("Report.PDF") == "pdf"
  {
    assert Lower("PDF") == "pdf" by {
      var l := Lower("PDF");
      assert |l| == 3;
      assert l[0] == LowerChar('P') == 'p';
      assert l[1] == LowerChar('D') == 'd';
      assert l[2] == LowerChar('F') == 'f';
    }
    assert "Report" + ['.'] + "PDF" == "Report.PDF";
    BucketOfExtension("Report", "PDF");
  }

  lemma BucketOfTarGz()
    ensures Bucket("archive.tar.gz") == "gz"
  {
    assert Lower("gz") == "gz" by {
      var l := Lower("gz");
      assert |l| == 2;
      assert l[0] == LowerChar('g') == 'g';
      assert l[1] == LowerChar('z') == 'z';
    }
    assert "archive.tar" + ['.'] + "gz" == "archive.tar.gz";
    BucketOfExtension("archive.tar", "gz");
  }

  /** Plain names, dotfiles and names ending in a dot all go to the sentinel. */
  lemma BucketOfSuffixlessNames()
    ensures Bucket("README") == NoExtension
    ensures Bucket(".gitignore") == NoExtension
    ensures Bucket("notes.") == NoExtension
  {
    BucketWithoutSuffix("README");
    BucketWithoutSuffix(".gitignore");
    BucketWithoutSuffix("notes.");
  }

  /** The sentinel is also a real extension: `notes.NO_EXTENSION` shares the bucket of suffixless names. */
  lemma SentinelSharedWithExtension()
    ensures Bucket("notes.NO_EXTENSION") == NoExtension
  {
    assert Lower("NO_EXTENSION") == NoExtension by {
      var l := Lower("NO_EXTENSION");
      assert |l| == 12;
      assert l[0] == 'n' && l[1] == 'o' && l[2] == '_' && l[3] == 'e';
      assert l[4] == 'x' && l[5] == 't' && l[6] == 'e' && l[7] == 'n';
      assert l[8] == 's' && l[9] == 'i' && l[10] == 'o' && l[11] == 'n';
    }
    assert "notes" + ['.'] + "NO_EXTENSION" == "notes.NO_EXTENSION";
    BucketOfExtension("notes", "NO_EXTENSION");
  }
}
