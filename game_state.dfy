/** The screens of the combined game (src/GameState.h), in their declared
    order. */
module States {

  datatype GameState =
    | Interface     // splash and main menu
    | Map           // world map
    | Puzzle
    | Rsa
    | Tetris
    | Circuit
    | Projection
    | SpaceShooter
    | Monster
    | Exit
}
