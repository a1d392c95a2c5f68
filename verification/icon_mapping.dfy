/** The icon table (src/utils/iconMapping.ts).

    Six icons, numbered 1..6, each with a file name, an image path under the
    deployment's base path and a display label. The base path comes from the
    build environment; it is a parameter here. Lookups outside 1..6 fall back:
    the path to icon 1's image, the label to the empty string. */
module IconMapping {
  import opened GameTypes

  datatype Icon = Icon(name: string, path: string, labelText: string)

  /** `TOTAL_ICONS`. */
  const TOTAL_ICONS: nat := 6

  /** `BASE_URL || '/'`: an absent or empty base URL becomes the root. */
  function BasePath(baseUrl: Option<string>): (r: string)
    ensures r != ""
    ensures baseUrl.Some? && baseUrl.value != "" ==> r == baseUrl.value
    ensures baseUrl.None? || baseUrl.value == "" ==> r == "/"
  {
    match baseUrl
    case Some(url) => if url != "" then url else "/"
    case None => "/"
  }

  /** The label column of `ICON_MAPPING`; it does not depend on the base
      path. */
  const ICON_LABELS: map<int, string> := map[
    1 := "ねこ",
    2 := "はな",
    3 := "たま",
    4 := "びとう",
    5 := "おまる",
    6 := "おえる"
  ]

  /** `ICON_MAPPING`, with the base path `base` spliced into every path. It
      has an entry for each number in 1..6 and no other, and every entry has
      a label to show. */
  function IconTable(base: string): (t: map<int, Icon>)
    ensures forall n :: n in t <==> InRange(n)
    ensures forall n :: n in t ==> t[n].labelText != ""
  {
    var t := map[
      1 := Icon("neko", base + "icons/neko.png", ICON_LABELS[1]),
      2 := Icon("hana", base + "icons/hana.png", ICON_LABELS[2]),
      3 := Icon("tama", base + "icons/tama.png", ICON_LABELS[3]),
      4 := Icon("bitou", base + "icons/bitou.png", ICON_LABELS[4]),
      5 := Icon("omaru", base + "icons/omaru.png", ICON_LABELS[5]),
      6 := Icon("oeru", base + "icons/oeru.png", ICON_LABELS[6])
    ];
    assert t.Keys == {1, 2, 3, 4, 5, 6};
    t
  }

  predicate InRange(num: int) {
    1 <= num <= 6
  }

  /** The image path an icon named `name` should have. */
  function ImagePath(base: string, name: string): string {
    base + "icons/" + name + ".png"
  }

  /** The table has exactly the numbers 1..6, and every entry's path is the
      image path of its own name. */
  lemma TableWellFormed(base: string)
    ensures forall n :: n in IconTable(base) <==> InRange(n)
    ensures |IconTable(base)| == TOTAL_ICONS
    ensures forall n :: n in IconTable(base) ==>
              IconTable(base)[n].path == ImagePath(base, IconTable(base)[n].name)
  {
    var t := IconTable(base);
    assert t.Keys == {1, 2, 3, 4, 5, 6};
    LiteralPath(base, "neko", "icons/neko.png");
    LiteralPath(base, "hana", "icons/hana.png");
    LiteralPath(base, "tama", "icons/tama.png");
    LiteralPath(base, "bitou", "icons/bitou.png");
    LiteralPath(base, "omaru", "icons/omaru.png");
    LiteralPath(base, "oeru", "icons/oeru.png");
  }

  /** A path written as one literal after the base is the image path of the
      name inside it. */
  lemma LiteralPath(base: string, name: string, literal: string)
    requires literal == "icons/" + name + ".png"
    ensures base + literal == ImagePath(base, name)
  {
    assert base + "icons/" + name + ".png" == base + ("icons/" + name + ".png");
  }

  /** `getIconPath`. */
  function GetIconPath(base: string, num: int): (r: string)
    ensures InRange(num) ==> r == ImagePath(base, IconTable(base)[num].name)
    ensures !InRange(num) ==> r == ImagePath(base, "neko")
  {
    if num < 1 || num > 6 then
      IconTable(base)[1].path
    else
      IconTable(base)[num].path
  }

  /** `getIconLabel`. */
  function GetIconLabel(num: int): (r: string)
    ensures InRange(num) ==> num in ICON_LABELS && r == ICON_LABELS[num] && r != ""
    ensures !InRange(num) ==> r == ""
  {
    if num < 1 || num > 6 then
      ""
    else
      ICON_LABELS[num]
  }

  /** The label lookup reads the same table as the path lookup: for every
      base path and every number in 1..6 it returns that entry's label. Both
      take their labels from `ICON_LABELS`, so this shows only that the two
      lookups agree with each other, not that a label is the right one. */
  lemma LabelFromTable(base: string, num: int)
    requires InRange(num)
    ensures num in IconTable(base)
    ensures GetIconLabel(num) == IconTable(base)[num].labelText
  {
    assert IconTable(base).Keys == {1, 2, 3, 4, 5, 6};
  }

  /** Paths built from two names are equal only if the names are. */
  lemma ImagePathInjective(base: string, a: string, b: string)
    requires ImagePath(base, a) == ImagePath(base, b)
    ensures a == b
  {
    var pa, pb := ImagePath(base, a), ImagePath(base, b);
    var start := |base| + 6;
    assert |a| == |b|;
    assert pa[start..start + |a|] == a;
    assert pb[start..start + |b|] == b;
  }

  /** Distinct icon numbers in range show distinct images. */
  lemma DistinctIconsDistinctPaths(base: string, m: int, n: int)
    requires InRange(m) && InRange(n) && m != n
    ensures GetIconPath(base, m) != GetIconPath(base, n)
  {
    var t := IconTable(base);
    if GetIconPath(base, m) == GetIconPath(base, n) {
      ImagePathInjective(base, t[m].name, t[n].name);
      assert false;
    }
  }

  /** Secrets are drawn from 1..13, but only 1..6 have an icon: the values
      7..13 all show icon 1's image and an empty label. */
  lemma SecretValuesBeyondTable(base: string, num: int)
    requires 7 <= num <= 13
    ensures GetIconPath(base, num) == GetIconPath(base, 1)
    ensures GetIconLabel(num) == ""
  {
  }
}
