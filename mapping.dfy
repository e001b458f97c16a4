/** The legacy block-id table of the MCSharp format: a fixed 256-entry
    mapping from the ids MCSharp-family servers store to the classic block
    ids this server uses, with one reserved id (163) that stands for "look
    in the overlay section". */
module BlockMapping {
  import opened Bytes

  /** Classic protocol block ids (the values of the server's Block enum that
      the table uses). */
  const Air: byte := 0
  const Stone: byte := 1
  const Cobblestone: byte := 4
  const Wood: byte := 5
  const Water: byte := 8
  const Lava: byte := 10
  const StillLava: byte := 11
  const Sand: byte := 12
  const Log: byte := 17
  const Leaves: byte := 18
  const Sponge: byte := 19
  const Glass: byte := 20
  const Red: byte := 21
  const Orange: byte := 22
  const Yellow: byte := 23
  const Lime: byte := 24
  const Green: byte := 25
  const Teal: byte := 26
  const Aqua: byte := 27
  const Cyan: byte := 28
  const Blue: byte := 29
  const Indigo: byte := 30
  const Violet: byte := 31
  const Magenta: byte := 32
  const Pink: byte := 33
  const Black: byte := 34
  const Gray: byte := 35
  const White: byte := 36
  const BrownMushroom: byte := 39
  const Gold: byte := 41
  const Iron: byte := 42
  const Slab: byte := 44
  const Brick: byte := 45
  const TNT: byte := 46
  const MossyCobble: byte := 48
  const Obsidian: byte := 49

  /** The id that means "this cell's real id is in the overlay". */
  const Sentinel: byte := 163

  /** The ids the static constructor assigns an entry to. */
  predicate Assigned(id: int) {
    70 <= id <= 75 || id == 80 || id == 83 || 85 <= id <= 87 || 89 <= id <= 98 ||
    100 <= id <= 104 || id == 106 || 110 <= id <= 141 || 143 <= id <= 167 ||
    175 <= id <= 176 || 182 <= id <= 185 || 187 <= id <= 196 || 211 <= id <= 212 ||
    230 <= id <= 233 || 235 <= id <= 240 || id == 242 || 245 <= id <= 249
  }

  /** The table, entry by entry as the static constructor fills it; every
      entry it does not assign keeps the array's initial 0 (Air). The
      sentinel's entry is the sentinel itself, no other entry is, and every
      other entry is a classic block id (at most Obsidian). */
  function Mapping(id: byte): (r: byte)
    ensures r == Sentinel <==> id == Sentinel
    ensures id != Sentinel ==> r <= Obsidian
  {
    match id
    case 70 => BrownMushroom
    case 71 => White
    case 72 => White
    case 73 => StillLava
    case 74 => TNT
    case 75 => Red
    case 80 => Cobblestone
    case 83 => Red
    case 85 => Orange
    case 86 => Yellow
    case 87 => Lime
    case 89 => Teal
    case 90 => Cyan
    case 91 => Aqua
    case 92 => Indigo
    case 93 => Violet
    case 94 => Magenta
    case 95 => Pink
    case 96 => Black
    case 97 => Gray
    case 98 => White
    case 100 => Glass
    case 101 => Obsidian
    case 102 => Brick
    case 103 => Stone
    case 104 => Cobblestone
    case 106 => Water
    case 110 => Wood
    case 111 => Log
    case 112 => Lava
    case 113 => Obsidian
    case 114 => Glass
    case 115 => Stone
    case 116 => Leaves
    case 117 => Sand
    case 118 => Wood
    case 119 => Green
    case 120 => TNT
    case 121 => Slab
    case 122 => Log
    case 123 => Obsidian
    case 124 => Glass
    case 125 => Stone
    case 126 => Leaves
    case 127 => Sand
    case 128 => Wood
    case 129 => Green
    case 130 => White
    case 131 => Black
    case 132 => Air
    case 133 => Water
    case 134 => Lava
    case 135 => TNT
    case 136 => Slab
    case 137 => Air
    case 138 => Water
    case 139 => Lava
    case 140 => Water
    case 141 => Lava
    case 143 => Aqua
    case 144 => Orange
    case 145 => Water
    case 146 => Lava
    case 147 => Cyan
    case 148 => Log
    case 149 => Obsidian
    case 150 => Glass
    case 151 => Stone
    case 152 => Leaves
    case 153 => Sand
    case 154 => Wood
    case 155 => Green
    case 156 => TNT
    case 157 => Slab
    case 158 => Lava
    case 159 => Water
    case 160 => Air
    case 161 => Water
    case 162 => Lava
    case 163 => Sentinel
    case 164 => Air
    case 165 => Air
    case 166 => Water
    case 167 => Lava
    case 175 => Cyan
    case 176 => Orange
    case 182 => TNT
    case 183 => TNT
    case 184 => Lava
    case 185 => Lava
    case 187 => Glass
    case 188 => Gold
    case 189 => Iron
    case 190 => Lava
    case 191 => Water
    case 192 => Air
    case 193 => Water
    case 194 => Lava
    case 195 => Lava
    case 196 => Water
    case 211 => Red
    case 212 => Lava
    case 230 => Aqua
    case 231 => TNT
    case 232 => MossyCobble
    case 233 => Lime
    case 235 => White
    case 236 => Black
    case 237 => Lava
    case 238 => Red
    case 239 => Water
    case 240 => Blue
    case 242 => Lava
    case 245 => Gold
    case 246 => Sponge
    case 247 => Gray
    case 248 => Red
    case 249 => Blue
    case _ => Air
  }

  /** Every entry the static constructor leaves alone is Air, in particular
      every id below 70. */
  lemma UnassignedEntriesAreAir(id: byte)
    requires !Assigned(id)
    ensures Mapping(id) == Air
  {
  }

  /** Map.ConvertBlockTypes: every block whose id the `remap` predicate
      selects is replaced by its table entry; the others are kept. A cell
      holds the sentinel afterwards exactly when it held it before, so the
      overlay pass sees the same sentinel cells whatever `remap` selects. */
  function ConvertBlockTypes(blocks: seq<byte>, remap: byte -> bool): (r: seq<byte>)
    ensures |r| == |blocks|
    ensures forall j :: 0 <= j < |r| ==> (r[j] == Sentinel <==> blocks[j] == Sentinel)
    ensures forall j :: 0 <= j < |r| && !remap(blocks[j]) ==> r[j] == blocks[j]
    ensures forall j :: 0 <= j < |r| && r[j] != blocks[j] ==> r[j] <= Obsidian
  {
    seq(|blocks|, j requires 0 <= j < |blocks| => if remap(blocks[j]) then Mapping(blocks[j]) else blocks[j])
  }
}
