/** The fixed configuration of the generator: the canonical age brackets of
    each binning mode, the grouping column each mode reads, and the metric
    catalogue grouped into display categories. */
module Catalogue {
  import opened Sequences

  const AnnualKey: string := "annuale"
  const SemestralKey: string := "semestrale"

  /** The binning modes, in the order the generator processes them. */
  const ModeKeys: seq<string> := [AnnualKey, SemestralKey]

  const AnnualOrder: seq<string> := ["3.6-4.5", "4.6-5.5", "5.6-6.5"]
  const SemestralOrder: seq<string> :=
    ["3.6-3.11", "4.0-4.5", "4.6-4.11", "5.0-5.5", "5.6-5.11", "6.0-6.5"]

  /** `ORDER_MAP.get(modeKey, [])`: the canonical bracket labels of a mode,
      and no labels for a key that is not a mode. */
  function OrderFor(modeKey: string): (order: seq<string>)
    ensures order != [] <==> modeKey in ModeKeys
  {
    if modeKey == AnnualKey then AnnualOrder
    else if modeKey == SemestralKey then SemestralOrder
    else []
  }

  /** No canonical bracket list names a bracket twice. */
  lemma OrderForDistinct(modeKey: string)
    ensures NoDuplicates(OrderFor(modeKey))
  {
  }

  /** The table column that holds a row's bracket label under a mode. */
  function GroupColumn(modeKey: string): (col: string)
    ensures col != SexColumn
  {
    if modeKey == AnnualKey then "fascia eta 12m" else "fascia eta 6m"
  }

  /** The column with the subject's sex code. */
  const SexColumn: string := "sesso"

  /** A catalogue entry: a bare column name, shown under its own name, or a
      column name paired with the name the dashboard shows. */
  datatype Item = Bare(name: string) | Renamed(source: string, display: string)
  {
    function SourceName(): string
    {
      match this
      case Bare(n) => n
      case Renamed(s, _) => s
    }

    function DisplayName(): string
    {
      match this
      case Bare(n) => n
      case Renamed(_, d) => d
    }
  }

  datatype Category = Category(name: string, items: seq<Item>)

  /** The names of a run of categories, in order. */
  function CategoryNames(cats: seq<Category>): seq<string>
  {
    seq(|cats|, k requires 0 <= k < |cats| => cats[k].name)
  }

  /** The catalogue the generator ships with. */
  const VariableGroups: seq<Category> := [
    Category("Generali", [
      Renamed("raven risposte corrette", "Raven"),
      Renamed("denominazione", "Denominazione (BVL)"),
      Renamed("articolazione", "Articolazione (BVL)"),
      Renamed("ripetizione frasi", "Ripetizione Frasi (BVL)"),
      Renamed("ripetizione NP", "Ripetizione Non Parole (BVL)"),
      Renamed("totale fluenza", "Fluenza semantica (TNL)")]),
    Category("Produttività", [
      Renamed("tempo descrittivo MMS_FA", "Tempo Descrittivo"),
      Renamed("MLU_units", "LME (Unità)"),
      Renamed("MLU_words", "LME (Parole)"),
      Renamed("totale parole", "Parole Totali"),
      Bare("% mono-bisillabiche"),
      Bare("% trisillabiche"),
      Bare("% polisillabiche")]),
    Category("Accuratezza", [
      Renamed("% parole corrette", "Parole Corrette (%)"),
      Renamed("% parole solo processi", "Processi Fonologici (%)"),
      Renamed("‰ idios", "Idiosincrasie (‰)"),
      Renamed("% variabilità", "Variabilità (%)"),
      Renamed("%globalAccuracy", "Accuratezza Globale (%)"),
      Renamed("%consonantAccuracy", "Accuratezza Consonantica (%)"),
      Renamed("% distortions", "Distorsioni (%)"),
      Renamed("% falsestart", "False Partenze (%)")]),
    Category("Modo Articolazione", [
      Bare("% occlusive"), Bare("% fricative"), Bare("% affricate"),
      Bare("% nasali"), Bare("% laterali"), Bare("% polivibranti")]),
    Category("Luogo Articolazione", [
      Bare("% bilabiali"), Bare("% labio-dentali"), Bare("% dentali"),
      Bare("% alveolari"), Bare("% postalveolari"), Bare("% palatali"), Bare("% velari")]),
    Category("Inventario", [
      Bare("fonemi presenti"), Bare("fonemi emergenti"), Bare("fonemi assenti"),
      Renamed("% fonemi presenti", "Completezza Inventario (%)")]),
    Category("Metriche sperimentali", [
      Renamed("TTR * 100", "TTR (%)"),
      Renamed("HDD * 100", "HDD (%)"),
      Renamed("MATTR50 * 100", "MATTR50 (%)"),
      Renamed("MATTR5% * 100", "MATTR5% (%)"),
      Renamed("MTLD", "MTLD"),
      Renamed("WIM", "WIM"),
      Renamed("vocD", "vocD"),
      Renamed("lexicalDensity (content/words) * 100", "Lexical Density (%)"),
      Renamed("overall similarity * 100", "Overall Similarity (%)")])
  ]

  /** The catalogue is a dictionary keyed by category name: no name repeats. */
  lemma VariableGroupsNamesDistinct()
    ensures NoDuplicates(CategoryNames(VariableGroups))
  {
  }
}
