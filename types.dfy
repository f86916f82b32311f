/**
  The value types of the dialogue controller: the three moods, the
  (NPC, mood) key of the dialogue dictionary, and the plain value of one
  dialogue entry.
 */
module Types {

  datatype Mood = Happy | Sad | Angry

  /** Dictionary key: an NPC number together with the mood the dialogue is for. */
  datatype NPCID = NPCID(npc: int, mood: Mood)

  /**
    The value of one dialogue entry: its key, its text, its mood, how often it
    has been shown, and the index of the table row it was read from.
   */
  datatype Record = Record(id: NPCID, text: string, mood: Mood, views: nat, lineOfOrigin: nat)

  /** Outcome of a dialogue request: the formatted line, or the missing-key failure. */
  datatype DialogueResult = Dialogue(line: string) | KeyNotFound

  /**
    The mood named by a table cell. Only the exact labels "Happy" and "Sad" are
    recognised; every other label, "Angry" and the empty cell included, falls
    back to Angry.
   */
  function MoodOf(cell: string): (m: Mood)
    ensures m == Happy <==> cell == "Happy"
    ensures m == Sad <==> cell == "Sad"
    ensures m == Angry <==> cell != "Happy" && cell != "Sad"
  {
    if cell == "Happy" then Happy
    else if cell == "Sad" then Sad
    else Angry
  }
}
