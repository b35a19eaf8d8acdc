/**
  The record the save file holds (`SaveFile` with its `Location`). Reading
  and writing the file and the JSON encoding are outside the model: a load
  is an `Option<SaveFile>` handed to `Camera3d.NewPlayer`, and a save is the
  record built from the player's centre.
 */
module Saves {
  import opened Vectors

  datatype Location = Location(x: real, y: real, z: real)

  datatype SaveFile = SaveFile(location: Location)

  /** The record `new_save` serialises for a position. */
  function SaveOf(position: Pos3): SaveFile {
    SaveFile(Location(position.x, position.y, position.z))
  }
}
