/**
  The crew section of a movie page: one row per crew member with the
  member's name and the job translated to Portuguese when the table knows it.
 */
module CrewSection {
  import opened Wrappers
  import Decimal
  import Text

  datatype CrewMember = CrewMember(name: string, job: string)

  /** One rendered row: its React key, the name and the job text. */
  datatype CrewRow = CrewRow(key: string, name: string, job: string)

  datatype Section = Section(title: string, rows: seq<CrewRow>)

  /** `jobTranslations`. */
  const JobTranslations: map<string, string> :=
    map["Director" := "Diretor", "Screenplay" := "Argumentista", "Writer" := "Escritor"]

  /** `jobTranslations[job] || job`: the table entry when there is a non-empty one, else the job itself. */
  function TranslateJob(job: string): string {
    if job in JobTranslations && JobTranslations[job] != "" then JobTranslations[job] else job
  }

  /**
    The three known jobs are translated, every other job passes through
    unchanged, and translating twice is the same as translating once (no
    translation is itself a key of the table).
   */
  lemma TranslateJobTable(job: string)
    ensures TranslateJob("Director") == "Diretor"
    ensures TranslateJob("Screenplay") == "Argumentista"
    ensures TranslateJob("Writer") == "Escritor"
    ensures job !in {"Director", "Screenplay", "Writer"} ==> TranslateJob(job) == job
    ensures TranslateJob(TranslateJob(job)) == TranslateJob(job)
  {
  }

  /** The row key `${member.name}-${index}`. */
  function RowKey(name: string, index: nat): string {
    name + "-" + Decimal.FromNat(index)
  }

  /**
    The text after the last '-' of a row key is the decimal index (whatever
    dashes the name holds), so the index can be read back from the key.
   */
  lemma RowKeyEndsWithIndex(name: string, index: nat)
    ensures var parts := Text.SplitOn(RowKey(name, index), '-');
      && parts[|parts| - 1] == Decimal.FromNat(index)
      && '-' !in parts[|parts| - 1]
      && Decimal.AllDigits(parts[|parts| - 1])
      && Decimal.ToNat(parts[|parts| - 1]) == index
  {
    Text.SplitAtSeparator(name, '-', Decimal.FromNat(index));
    Text.SplitWithoutSeparator(Decimal.FromNat(index), '-');
    Decimal.ToNatFromNat(index);
  }

  /** Rows at distinct positions have distinct keys, whatever the names. */
  lemma RowKeysDistinct(name1: string, i: nat, name2: string, j: nat)
    ensures i != j ==> RowKey(name1, i) != RowKey(name2, j)
  {
    RowKeyEndsWithIndex(name1, i);
    RowKeyEndsWithIndex(name2, j);
  }

  /** `crew.map((member, index) => ...)` for the members from position `start` on. */
  function RowsFrom(crew: seq<CrewMember>, start: nat): (rows: seq<CrewRow>)
    ensures |rows| == |crew|
    ensures forall i :: 0 <= i < |crew| ==>
      rows[i] == CrewRow(RowKey(crew[i].name, start + i), crew[i].name, TranslateJob(crew[i].job))
    decreases |crew|
  {
    if crew == [] then []
    else [CrewRow(RowKey(crew[0].name, start), crew[0].name, TranslateJob(crew[0].job))]
         + RowsFrom(crew[1..], start + 1)
  }

  /**
    The section: nothing at all for a missing or empty crew; otherwise the
    title and exactly one row per member, in input order, with the name as
    given, the translated job and the key built from the member's position.
   */
  function Render(title: string, crew: Option<seq<CrewMember>>): (section: Option<Section>)
    ensures section.None? <==> crew.None? || crew.value == []
    ensures section.Some? ==>
      && section.value.title == title
      && |section.value.rows| == |crew.value|
      && forall i :: 0 <= i < |crew.value| ==>
           section.value.rows[i] == CrewRow(RowKey(crew.value[i].name, i), crew.value[i].name, TranslateJob(crew.value[i].job))
  {
    if crew.None? || |crew.value| == 0 then None
    else Some(Section(title, RowsFrom(crew.value, 0)))
  }

  /** The keys of a rendered section are pairwise distinct. */
  lemma RenderedKeysDistinct(title: string, crew: Option<seq<CrewMember>>)
    ensures var section := Render(title, crew);
      section.Some? ==>
        forall i, j :: 0 <= i < j < |section.value.rows| ==> section.value.rows[i].key != section.value.rows[j].key
  {
    var section := Render(title, crew);
    if section.Some? {
      var rows := section.value.rows;
      forall i, j | 0 <= i < j < |rows| ensures rows[i].key != rows[j].key {
        RowKeysDistinct(crew.value[i].name, i, crew.value[j].name, j);
      }
    }
  }
}
