/** The two serial ports and their DMA buffers (src/shared/drv-usart-dma.h). */
module Usart {
  datatype Port = Dbg | Gsm

  const DMA_RX_BUFFER_SIZE: nat := 0x100
  const DMA_TX_BUFFER_SIZE: nat := 0x400
}
