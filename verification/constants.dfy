/**
 The colour palette: the per-category default styling and the six
 user-selectable colour themes, keyed by name.
 */
module Palette {
  import opened Types

  /** A selectable colour theme: display name, style classes, dot class. */
  datatype Theme = Theme(title: string, classes: string, dot: string)

  const CategoryColors: map<Category, string> := map[
    Business := "bg-blue-100 text-blue-700 border-blue-200",
    Student := "bg-emerald-100 text-emerald-700 border-emerald-200",
    Personal := "bg-purple-100 text-purple-700 border-purple-200",
    Other := "bg-slate-100 text-slate-700 border-slate-200"
  ]

  const EventColors: map<string, Theme> := map[
    "blue" := Theme("Blue", "bg-blue-100 text-blue-700 border-blue-200", "bg-blue-500"),
    "emerald" := Theme("Green", "bg-emerald-100 text-emerald-700 border-emerald-200", "bg-emerald-500"),
    "purple" := Theme("Purple", "bg-purple-100 text-purple-700 border-purple-200", "bg-purple-500"),
    "amber" := Theme("Orange", "bg-amber-100 text-amber-800 border-amber-200", "bg-amber-500"),
    "rose" := Theme("Red", "bg-rose-100 text-rose-700 border-rose-200", "bg-rose-500"),
    "cyan" := Theme("Cyan", "bg-cyan-100 text-cyan-700 border-cyan-200", "bg-cyan-500")
  ]

  /** The colour the form and the AI confirmation use when none is given. */
  const DefaultColor: string := "blue"

  /** Every category has styling, so the category fallback never misses. */
  lemma CategoryColorsTotal()
    ensures forall c: Category :: c in CategoryColors
    ensures CategoryColors.Keys == set c | c in AllCategories
  {
    EnumerationsComplete();
  }

  /** The palette has exactly six keys, the default colour and both
      classroom-import colours among them. */
  lemma EventColorKeys()
    ensures EventColors.Keys == {"blue", "emerald", "purple", "amber", "rose", "cyan"}
    ensures |EventColors| == 6
    ensures DefaultColor in EventColors
    ensures "emerald" in EventColors && "blue" in EventColors
  {
    assert EventColors.Keys == {"blue", "emerald", "purple", "amber", "rose", "cyan"};
  }
}
