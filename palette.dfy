/** The colour palette of backend/app/core/state.py: two public colours and two locked ones. */
module Palette {

  datatype Swatch = Swatch(id: string, name: string, hex: string)

  const Public: seq<Swatch> := [
    Swatch("violet", "Violet", "#8A2BE2"),
    Swatch("blue", "Bleu", "#3B82F6")
  ]

  const Locked: seq<Swatch> := [
    Swatch("gold", "Or", "#FFC93A"),
    Swatch("crimson", "Cramoisi", "#EF4444")
  ]

  /** `{c["hex"] for c in PALETTE["public"]}`. */
  function PublicHexes(): set<string> {
    set i | 0 <= i < |Public| :: Public[i].hex
  }

  /** `{c["hex"] for c in PALETTE["locked"]}`. */
  function LockedHexes(): set<string> {
    set i | 0 <= i < |Locked| :: Locked[i].hex
  }

  /** The colour every new user starts with (repository/user.py and the chat event default). */
  const DefaultColor: string := "#8A2BE2"

  lemma PaletteContents()
    ensures PublicHexes() == {"#8A2BE2", "#3B82F6"}
    ensures LockedHexes() == {"#FFC93A", "#EF4444"}
    ensures PublicHexes() !! LockedHexes()
    ensures DefaultColor in PublicHexes()
  {
    assert Public[0].hex in PublicHexes() && Public[1].hex in PublicHexes();
    assert Locked[0].hex in LockedHexes() && Locked[1].hex in LockedHexes();
  }
}
