/**
 * The C-ABI metadata records of include/plugininfo.h and their printable form
 * (src/plugininfo.cpp). The text layout defined here is shared with
 * `PluginInfoStd::toString`.
 */
module PluginInfos {
  import opened CStringUtil
  import opened Sequences

  /**
   * `jp::Dependency`. Each field is the character buffer its `const char*`
   * points to; reading it as a string stops at the first NUL.
   */
  datatype Dependency = Dependency(name: string, version: string)

  /** `jp::PluginInfo`: seven C strings and a C array of `dependenciesNb` dependencies. */
  datatype PluginInfo = PluginInfo(
    name: string,
    prettyName: string,
    version: string,
    author: string,
    url: string,
    license: string,
    copyright: string,
    dependenciesNb: int,
    dependencies: seq<Dependency>)

  const Header: string := "Plugin info:\n"

  /** One `caption: value` line. */
  function Line(caption: string, value: string): string
  {
    caption + value + "\n"
  }

  /** The header and the field lines, in the order both `toString` variants print them. */
  function Fields(name: string, prettyName: string, version: string, author: string,
                  url: string, license: string, copyright: string): string
  {
    Header +
    Line("Name: ", name) +
    Line("Pretty name: ", prettyName) +
    Line("Version: ", version) +
    Line("Author: ", author) +
    Line("Url: ", url) +
    Line("License: ", license) +
    Line("Copyright: ", copyright) +
    "Dependencies:\n"
  }

  function DependencyLine(d: Dependency): string
  {
    " - " + d.name + " (" + d.version + ")\n"
  }

  /** One line per dependency, in order. */
  function DependencyLines(ds: seq<Dependency>): string
  {
    if |ds| == 0 then "" else DependencyLines(ds[..|ds| - 1]) + DependencyLine(ds[|ds| - 1])
  }

  /** Printing a list of dependencies is printing its parts one after the other. */
  lemma {:induction false} DependencyLinesAppend(a: seq<Dependency>, b: seq<Dependency>)
    ensures DependencyLines(a + b) == DependencyLines(a) + DependencyLines(b)
    decreases |b|
  {
    if |b| == 0 {
      assert a + b == a;
    } else {
      var b' := b[..|b| - 1];
      assert (a + b)[..|a + b| - 1] == a + b';
      DependencyLinesAppend(a, b');
    }
  }

  /** The lines of `ds` are exactly the lines of each dependency, in index order. */
  lemma DependencyLinesOfOne(d: Dependency)
    ensures DependencyLines([d]) == DependencyLine(d)
  {
    assert [d][..0] == [];
  }

  /** The text of the dependency array as `std::string(const char*)` reads it. */
  function Text(d: Dependency): Dependency
  {
    Dependency(TextOf(d.name), TextOf(d.version))
  }

  function Texts(ds: seq<Dependency>): seq<Dependency>
  {
    seq(|ds|, i requires 0 <= i < |ds| => Text(ds[i]))
  }

  lemma TextsStep(ds: seq<Dependency>, i: nat)
    requires i < |ds|
    ensures DependencyLines(Texts(ds[..i + 1])) == DependencyLines(Texts(ds[..i])) + DependencyLine(Text(ds[i]))
  {
    assert Texts(ds[..i + 1])[..i] == Texts(ds[..i]);
  }

  /** The number of entries `toString` reads: its loop runs for `0 <= i < dependenciesNb`. */
  function ReadCount(info: PluginInfo): nat
  {
    if info.dependenciesNb < 0 then 0 else info.dependenciesNb
  }

  /** What `PluginInfo::toString` prints, read as a C string. */
  function InfoText(info: PluginInfo): string
    requires ReadCount(info) <= |info.dependencies|
  {
    Fields(TextOf(info.name), TextOf(info.prettyName), TextOf(info.version), TextOf(info.author),
           TextOf(info.url), TextOf(info.license), TextOf(info.copyright)) +
    DependencyLines(Texts(info.dependencies[..ReadCount(info)]))
  }

  lemma FieldsText(name: CText, prettyName: CText, version: CText, author: CText,
                   url: CText, license: CText, copyright: CText)
    ensures NUL !in Fields(name, prettyName, version, author, url, license, copyright)
  {
  }

  lemma {:induction false} DependencyLinesText(ds: seq<Dependency>)
    requires forall i :: 0 <= i < |ds| ==> NUL !in ds[i].name && NUL !in ds[i].version
    ensures NUL !in DependencyLines(ds)
  {
    if |ds| > 0 {
      DependencyLinesText(ds[..|ds| - 1]);
    }
  }

  /**
   * The printed text has no NUL inside, so the `strdup` of its `c_str()`
   * returned by `toString` keeps all of it.
   */
  lemma InfoTextIsText(info: PluginInfo)
    requires ReadCount(info) <= |info.dependencies|
    ensures NUL !in InfoText(info)
    ensures TextOf(InfoText(info)) == InfoText(info)
  {
    FieldsText(TextOf(info.name), TextOf(info.prettyName), TextOf(info.version), TextOf(info.author),
                   TextOf(info.url), TextOf(info.license), TextOf(info.copyright));
    DependencyLinesText(Texts(info.dependencies[..ReadCount(info)]));
    TextOfText(InfoText(info));
  }

  lemma PrefixOfAppend(x: string, y: string, n: nat)
    requires n <= |x|
    ensures (x + y)[..n] == x[..n]
  {
  }

  /** Whatever the fields hold and whatever follows them, the text begins with the header. */
  lemma FieldsBegin(name: string, prettyName: string, version: string, author: string,
                    url: string, license: string, copyright: string, rest: string)
    ensures (Fields(name, prettyName, version, author, url, license, copyright) + rest)[..|Header|] == Header
  {
    var n := |Header|;
    var x := Header;
    PrefixOfAppend(x, Line("Name: ", name), n);
    x := x + Line("Name: ", name);
    PrefixOfAppend(x, Line("Pretty name: ", prettyName), n);
    x := x + Line("Pretty name: ", prettyName);
    PrefixOfAppend(x, Line("Version: ", version), n);
    x := x + Line("Version: ", version);
    PrefixOfAppend(x, Line("Author: ", author), n);
    x := x + Line("Author: ", author);
    PrefixOfAppend(x, Line("Url: ", url), n);
    x := x + Line("Url: ", url);
    PrefixOfAppend(x, Line("License: ", license), n);
    x := x + Line("License: ", license);
    PrefixOfAppend(x, Line("Copyright: ", copyright), n);
    x := x + Line("Copyright: ", copyright);
    PrefixOfAppend(x, "Dependencies:\n", n);
    x := x + "Dependencies:\n";
    PrefixOfAppend(x, rest, n);
  }

  /** `PluginInfo::toString` always begins with the header: it has no check of the name. */
  lemma InfoTextBegins(info: PluginInfo)
    requires ReadCount(info) <= |info.dependencies|
    ensures InfoText(info)[..|Header|] == Header
  {
    FieldsBegin(TextOf(info.name), TextOf(info.prettyName), TextOf(info.version), TextOf(info.author),
                TextOf(info.url), TextOf(info.license), TextOf(info.copyright),
                DependencyLines(Texts(info.dependencies[..ReadCount(info)])));
  }

  /**
   * `PluginInfo::toString`: the header, the field lines, then one line per
   * entry of the dependency array, copied with `strdup`. There is no check of
   * the name here. The array must hold `dependenciesNb` entries.
   */
  method ToString(info: PluginInfo) returns (s: string)
    requires ReadCount(info) <= |info.dependencies|
    ensures s == InfoText(info)
  {
    var str := Header;
    str := str + Line("Name: ", TextOf(info.name));
    str := str + Line("Pretty name: ", TextOf(info.prettyName));
    str := str + Line("Version: ", TextOf(info.version));
    str := str + Line("Author: ", TextOf(info.author));
    str := str + Line("Url: ", TextOf(info.url));
    str := str + Line("License: ", TextOf(info.license));
    str := str + Line("Copyright: ", TextOf(info.copyright));
    str := str + "Dependencies:\n";
    ghost var fields := str;
    assert fields == Fields(TextOf(info.name), TextOf(info.prettyName), TextOf(info.version), TextOf(info.author),
                            TextOf(info.url), TextOf(info.license), TextOf(info.copyright));
    assert Texts(info.dependencies[..0]) == [];
    var i := 0;
    while i < info.dependenciesNb
      invariant 0 <= i <= ReadCount(info)
      invariant str == fields + DependencyLines(Texts(info.dependencies[..i]))
    {
      var dep := info.dependencies[i];
      var line := DependencyLine(Text(dep));
      TextsStep(info.dependencies, i);
      AppendAssoc(fields, DependencyLines(Texts(info.dependencies[..i])), line);
      str := str + line;
      i := i + 1;
    }
    assert info.dependencies[..i] == info.dependencies[..ReadCount(info)];
    assert str == InfoText(info);
    InfoTextIsText(info);
    s := TextOf(str);
  }
}
